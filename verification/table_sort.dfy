/** The table's column sort: the comparator built from the sort configuration, and the
    stable sort that `Array.prototype.sort` performs with it. */
module TableSort {
  import opened Records
  import opened Text
  import opened Seqs

  /** The five sortable columns. */
  datatype SortKey = IdKey | FirstNameKey | LastNameKey | EmailKey | DepartmentKey

  datatype Direction = Ascending | Descending

  datatype SortConfig = SortConfig(key: SortKey, direction: Direction)

  /** The configuration the table starts with. */
  const InitialSort: SortConfig := SortConfig(IdKey, Ascending)

  /** `a[key] < b[key]`: numbers for the id column, strings for the others. */
  predicate KeyLess(a: User, b: User, k: SortKey)
  {
    match k
    case IdKey => a.id < b.id
    case FirstNameKey => Less(a.firstName, b.firstName)
    case LastNameKey => Less(a.lastName, b.lastName)
    case EmailKey => Less(a.email, b.email)
    case DepartmentKey => Less(a.department, b.department)
  }

  /** `a` and `b` hold the same value in column `k`. */
  predicate SameKey(a: User, b: User, k: SortKey)
  {
    match k
    case IdKey => a.id == b.id
    case FirstNameKey => a.firstName == b.firstName
    case LastNameKey => a.lastName == b.lastName
    case EmailKey => a.email == b.email
    case DepartmentKey => a.department == b.department
  }

  /** The comparator handed to `sort`: -1, 1 or 0, with the sign flipped when descending. */
  function Compare(a: User, b: User, cfg: SortConfig): int
  {
    if KeyLess(a, b, cfg.key) then (if cfg.direction == Ascending then -1 else 1)
    else if KeyLess(b, a, cfg.key) then (if cfg.direction == Ascending then 1 else -1)
    else 0
  }

  // ---------------------------------------------------------------------------
  // The column values are totally ordered, so the comparator is consistent

  /** Exactly one of "less", "greater" and "same value" holds between two records. */
  lemma KeyTrichotomy(a: User, b: User, k: SortKey)
    ensures SameKey(a, b, k) <==> !KeyLess(a, b, k) && !KeyLess(b, a, k)
    ensures KeyLess(a, b, k) ==> !KeyLess(b, a, k)
  {
    match k
    case IdKey =>
    case FirstNameKey =>
      StringTrichotomy(a.firstName, b.firstName);
    case LastNameKey =>
      StringTrichotomy(a.lastName, b.lastName);
    case EmailKey =>
      StringTrichotomy(a.email, b.email);
    case DepartmentKey =>
      StringTrichotomy(a.department, b.department);
  }

  /** Exactly one of `a < b`, `b < a`, `a == b` holds between two strings. */
  lemma StringTrichotomy(a: string, b: string)
    ensures a == b <==> !Less(a, b) && !Less(b, a)
    ensures Less(a, b) ==> !Less(b, a)
  {
    LessTrichotomy(a, b);
    if a == b {
      LessIrreflexive(a);
    }
    if Less(a, b) {
      LessAsymmetric(a, b);
    }
  }

  /** "Less" in one column is transitive. */
  lemma KeyLessTransitive(a: User, b: User, c: User, k: SortKey)
    requires KeyLess(a, b, k) && KeyLess(b, c, k)
    ensures KeyLess(a, c, k)
  {
    match k
    case IdKey =>
    case FirstNameKey =>
      LessTransitive(a.firstName, b.firstName, c.firstName);
    case LastNameKey =>
      LessTransitive(a.lastName, b.lastName, c.lastName);
    case EmailKey =>
      LessTransitive(a.email, b.email, c.email);
    case DepartmentKey =>
      LessTransitive(a.department, b.department, c.department);
  }

  /** The comparator is consistent in the sense `Array.prototype.sort` requires:
      zero exactly on equal column values, antisymmetric, and transitive. */
  lemma ComparatorConsistent(a: User, b: User, c: User, cfg: SortConfig)
    ensures Compare(a, b, cfg) == 0 <==> SameKey(a, b, cfg.key)
    ensures Compare(a, b, cfg) == -Compare(b, a, cfg)
    ensures Compare(a, b, cfg) <= 0 && Compare(b, c, cfg) <= 0 ==> Compare(a, c, cfg) <= 0
  {
    KeyTrichotomy(a, b, cfg.key);
    KeyTrichotomy(b, c, cfg.key);
    KeyTrichotomy(a, c, cfg.key);
    if KeyLess(a, b, cfg.key) && KeyLess(b, c, cfg.key) {
      KeyLessTransitive(a, b, c, cfg.key);
    }
    if KeyLess(c, b, cfg.key) && KeyLess(b, a, cfg.key) {
      KeyLessTransitive(c, b, a, cfg.key);
    }
  }

  // ---------------------------------------------------------------------------
  // The stable sort

  /** `s` is ordered by the comparator: no later record compares before an earlier one. */
  predicate Sorted(s: seq<User>, cfg: SortConfig)
  {
    forall i, j :: 0 <= i < j < |s| ==> Compare(s[i], s[j], cfg) <= 0
  }

  /** Places `x`, which came before every record of `s`, ahead of the first record that
      does not compare strictly before it. */
  function Insert(x: User, s: seq<User>, cfg: SortConfig): (r: seq<User>)
    ensures multiset(r) == multiset(s) + multiset{x}
    decreases |s|
  {
    if s == [] then [x]
    else if Compare(s[0], x, cfg) < 0 then
      assert s == [s[0]] + s[1..];
      [s[0]] + Insert(x, s[1..], cfg)
    else [x] + s
  }

  /** `sortedUsers.sort(comparator)`, the stable sort of ECMAScript 2019, as an insertion sort. */
  function Sort(s: seq<User>, cfg: SortConfig): (r: seq<User>)
    ensures multiset(r) == multiset(s)
    ensures |r| == |s|
    decreases |s|
  {
    if s == [] then []
    else
      assert s == [s[0]] + s[1..];
      Insert(s[0], Sort(s[1..], cfg), cfg)
  }

  /** A record that compares at or before every record of a sorted sequence can go in front. */
  lemma ConsSorted(v: User, t: seq<User>, cfg: SortConfig)
    requires Sorted(t, cfg)
    requires forall y :: y in t ==> Compare(v, y, cfg) <= 0
    ensures Sorted([v] + t, cfg)
  {
    var r := [v] + t;
    forall i, j | 0 <= i < j < |r| ensures Compare(r[i], r[j], cfg) <= 0 {
      assert r[j] == t[j - 1] && t[j - 1] in t;
      if i > 0 {
        assert r[i] == t[i - 1];
      }
    }
  }

  /** Inserting into a sorted sequence keeps it sorted. */
  lemma {:induction false} InsertSorted(x: User, s: seq<User>, cfg: SortConfig)
    requires Sorted(s, cfg)
    ensures Sorted(Insert(x, s, cfg), cfg)
    decreases |s|
  {
    if s != [] {
      if Compare(s[0], x, cfg) < 0 {
        var t := Insert(x, s[1..], cfg);
        assert Sorted(s[1..], cfg) by {
          forall i, j | 0 <= i < j < |s| - 1 ensures Compare(s[1..][i], s[1..][j], cfg) <= 0 {
            assert s[1..][i] == s[i + 1] && s[1..][j] == s[j + 1];
          }
        }
        InsertSorted(x, s[1..], cfg);
        assert Insert(x, s, cfg) == [s[0]] + t;
        forall y | y in t ensures Compare(s[0], y, cfg) <= 0 {
          assert y in multiset(t);
          if y != x {
            assert y in multiset(s[1..]);
            var m :| 0 <= m < |s[1..]| && s[1..][m] == y;
            assert s[m + 1] == y;
          }
        }
        ConsSorted(s[0], t, cfg);
      } else {
        assert Insert(x, s, cfg) == [x] + s;
        forall y | y in s ensures Compare(x, y, cfg) <= 0 {
          var m :| 0 <= m < |s| && s[m] == y;
          ComparatorConsistent(x, s[0], y, cfg);
        }
        ConsSorted(x, s, cfg);
      }
    }
  }

  /** The sort's output is ordered by the comparator. */
  lemma {:induction false} SortSorted(s: seq<User>, cfg: SortConfig)
    ensures Sorted(Sort(s, cfg), cfg)
    decreases |s|
  {
    if s != [] {
      SortSorted(s[1..], cfg);
      InsertSorted(s[0], Sort(s[1..], cfg), cfg);
    }
  }

  /** Ordered by the comparator means ordered by the column: non-decreasing values when
      ascending, non-increasing when descending. */
  lemma SortedByColumn(s: seq<User>, cfg: SortConfig)
    requires Sorted(s, cfg)
    ensures cfg.direction == Ascending ==>
      forall i, j :: 0 <= i < j < |s| ==> !KeyLess(s[j], s[i], cfg.key)
    ensures cfg.direction == Descending ==>
      forall i, j :: 0 <= i < j < |s| ==> !KeyLess(s[i], s[j], cfg.key)
  {
    forall i, j | 0 <= i < j < |s| {
      KeyTrichotomy(s[i], s[j], cfg.key);
    }
  }

  // ---------------------------------------------------------------------------
  // Stability

  /** The records of `s` holding the same value as `u` in column `k`, in `s`'s order. */
  function Peers(s: seq<User>, u: User, k: SortKey): seq<User>
  {
    Filter(s, v => SameKey(v, u, k))
  }

  /** A record in front that holds `u`'s value is the first of the peers. */
  lemma PeersConsSame(v: User, t: seq<User>, u: User, k: SortKey)
    requires SameKey(v, u, k)
    ensures Peers([v] + t, u, k) == [v] + Peers(t, u, k)
  {
    assert ([v] + t)[0] == v && ([v] + t)[1..] == t;
  }

  /** A record in front that holds another value is not among the peers. */
  lemma PeersConsOther(v: User, t: seq<User>, u: User, k: SortKey)
    requires !SameKey(v, u, k)
    ensures Peers([v] + t, u, k) == Peers(t, u, k)
  {
    assert ([v] + t)[0] == v && ([v] + t)[1..] == t;
    assert Peers([v] + t, u, k) == [] + Peers(t, u, k);
  }

  /** Inserting `x` puts it ahead of every record holding the same value. */
  lemma {:induction false} InsertPeersSame(x: User, s: seq<User>, u: User, cfg: SortConfig)
    requires SameKey(x, u, cfg.key)
    ensures Peers(Insert(x, s, cfg), u, cfg.key) == [x] + Peers(s, u, cfg.key)
    decreases |s|
  {
    var k := cfg.key;
    if s == [] {
      PeersConsSame(x, [], u, k);
      assert [x] + [] == [x];
    } else if Compare(s[0], x, cfg) < 0 {
      var t := Insert(x, s[1..], cfg);
      assert Insert(x, s, cfg) == [s[0]] + t;
      ComparatorConsistent(s[0], x, x, cfg);
      assert !SameKey(s[0], u, k);
      InsertPeersSame(x, s[1..], u, cfg);
      PeersConsOther(s[0], t, u, k);
      PeersConsOther(s[0], s[1..], u, k);
      assert s == [s[0]] + s[1..];
    } else {
      assert Insert(x, s, cfg) == [x] + s;
      PeersConsSame(x, s, u, k);
    }
  }

  /** Putting the first record of `s` in front of a sequence with the peers of the rest
      of `s` gives the peers of `s`. */
  lemma PeersCons(s: seq<User>, t: seq<User>, u: User, k: SortKey)
    requires |s| > 0 && Peers(t, u, k) == Peers(s[1..], u, k)
    ensures Peers([s[0]] + t, u, k) == Peers(s, u, k)
  {
    assert ([s[0]] + t)[0] == s[0] && ([s[0]] + t)[1..] == t;
  }

  /** Inserting `x` leaves the records holding a different value in their order. */
  lemma {:induction false} InsertPeersOther(x: User, s: seq<User>, u: User, cfg: SortConfig)
    requires !SameKey(x, u, cfg.key)
    ensures Peers(Insert(x, s, cfg), u, cfg.key) == Peers(s, u, cfg.key)
    decreases |s|
  {
    var k := cfg.key;
    if s == [] {
      PeersConsOther(x, [], u, k);
      assert [x] + [] == [x];
    } else if Compare(s[0], x, cfg) < 0 {
      var t := Insert(x, s[1..], cfg);
      assert Insert(x, s, cfg) == [s[0]] + t;
      InsertPeersOther(x, s[1..], u, cfg);
      PeersCons(s, t, u, k);
    } else {
      assert Insert(x, s, cfg) == [x] + s;
      PeersConsOther(x, s, u, k);
    }
  }

  /** The sort is stable: records with equal values in the sort column keep their input order. */
  lemma {:induction false} SortStable(s: seq<User>, u: User, cfg: SortConfig)
    ensures Peers(Sort(s, cfg), u, cfg.key) == Peers(s, u, cfg.key)
    decreases |s|
  {
    if s != [] {
      SortStable(s[1..], u, cfg);
      assert s == [s[0]] + s[1..];
      if SameKey(s[0], u, cfg.key) {
        PeersConsSame(s[0], s[1..], u, cfg.key);
        InsertPeersSame(s[0], Sort(s[1..], cfg), u, cfg);
      } else {
        PeersConsOther(s[0], s[1..], u, cfg.key);
        InsertPeersOther(s[0], Sort(s[1..], cfg), u, cfg);
      }
    }
  }

  /** Sorting an already sorted sequence changes nothing. */
  lemma {:induction false} SortOfSorted(s: seq<User>, cfg: SortConfig)
    requires Sorted(s, cfg)
    ensures Sort(s, cfg) == s
    decreases |s|
  {
    if s != [] {
      SortOfSorted(s[1..], cfg);
      var t := s[1..];
      assert Sort(s, cfg) == Insert(s[0], t, cfg);
      if t != [] {
        assert Compare(s[0], t[0], cfg) <= 0;
        ComparatorConsistent(s[0], t[0], t[0], cfg);
      }
    }
  }
}
