/** `sorted(nodes.keys(), key=host_sort_key)`: a stable sort under a key,
    written as an insertion sort over any key function, and its use on the
    hosts with the key of their names. Elements whose keys tie (`node-01`,
    `node-1`) keep their input order. */
module HostSort {
  import opened Nodes
  import opened SortKey

  /** Non-decreasing under `key`. */
  predicate SortedBy<T>(key: T -> Key, s: seq<T>)
  {
    forall i, j :: 0 <= i < j < |s| ==> !KeyLess(key(s[j]), key(s[i]))
  }

  /** Inserts `x` after every element whose key is not greater than its own. */
  function Insert<T>(key: T -> Key, x: T, s: seq<T>): (r: seq<T>)
    ensures multiset(r) == multiset(s) + multiset{x}
  {
    if s == [] then [x]
    else if KeyLess(key(x), key(s[0])) then [x] + s
    else
      assert s == [s[0]] + s[1..];
      [s[0]] + Insert(key, x, s[1..])
  }

  /** Inserts the elements one after the other, in input order. */
  function SortBy<T>(key: T -> Key, s: seq<T>): (r: seq<T>)
    ensures multiset(r) == multiset(s)
  {
    if s == [] then []
    else
      assert s == s[..|s| - 1] + [s[|s| - 1]];
      Insert(key, s[|s| - 1], SortBy(key, s[..|s| - 1]))
  }

  /** The elements of `s` whose key is `k`, in order. */
  function WithKey<T>(key: T -> Key, s: seq<T>, k: Key): seq<T>
  {
    if s == [] then [] else (if key(s[0]) == k then [s[0]] else []) + WithKey(key, s[1..], k)
  }

  lemma {:induction false} WithKeyAppend<T>(key: T -> Key, a: seq<T>, b: seq<T>, k: Key)
    ensures WithKey(key, a + b, k) == WithKey(key, a, k) + WithKey(key, b, k)
  {
    if a == [] {
      assert a + b == b;
    } else {
      assert (a + b)[1..] == a[1..] + b;
      WithKeyAppend(key, a[1..], b, k);
    }
  }

  lemma {:induction false} WithKeyNone<T>(key: T -> Key, s: seq<T>, k: Key)
    requires forall i :: 0 <= i < |s| ==> key(s[i]) != k
    ensures WithKey(key, s, k) == []
  {
    if s != [] {
      WithKeyNone(key, s[1..], k);
    }
  }

  lemma SortedTail<T>(key: T -> Key, s: seq<T>)
    requires SortedBy(key, s) && s != []
    ensures SortedBy(key, s[1..])
  {
    forall i, j | 0 <= i < j < |s| - 1 ensures !KeyLess(key(s[1..][j]), key(s[1..][i])) {
      assert s[1..][i] == s[i + 1] && s[1..][j] == s[j + 1];
    }
  }

  /** Every element of a sorted sequence has a key no smaller than the
      first one's. */
  lemma FirstIsLeast<T>(key: T -> Key, s: seq<T>, y: T)
    requires SortedBy(key, s) && y in s
    ensures !KeyLess(key(y), key(s[0]))
  {
    var j :| 0 <= j < |s| && s[j] == y;
    if j > 0 {
      assert !KeyLess(key(s[j]), key(s[0]));
    } else {
      KeyLessIrreflexive(key(y));
    }
  }

  /** Putting an element with a smaller key than the first in front keeps
      the sequence sorted. */
  lemma ConsSorted<T>(key: T -> Key, x: T, s: seq<T>)
    requires SortedBy(key, s) && s != [] && KeyLess(key(x), key(s[0]))
    ensures SortedBy(key, [x] + s)
  {
    var r := [x] + s;
    forall i, j | 0 <= i < j < |r| ensures !KeyLess(key(r[j]), key(r[i])) {
      if i == 0 {
        assert r[j] == s[j - 1];
        FirstIsLeast(key, s, s[j - 1]);
        KeyLessLe(key(x), key(s[0]), key(s[j - 1]));
        if KeyLess(key(r[j]), key(x)) {
          KeyLessTransitive(key(x), key(r[j]), key(x));
          KeyLessIrreflexive(key(x));
        }
      } else {
        assert r[i] == s[i - 1] && r[j] == s[j - 1];
      }
    }
  }

  /** Putting `y` in front of a sorted sequence whose keys are none smaller
      than its own keeps it sorted. */
  lemma ConsLeast<T>(key: T -> Key, y: T, t: seq<T>)
    requires SortedBy(key, t)
    requires forall z | z in t :: !KeyLess(key(z), key(y))
    ensures SortedBy(key, [y] + t)
  {
    var r := [y] + t;
    forall i, j | 0 <= i < j < |r| ensures !KeyLess(key(r[j]), key(r[i])) {
      if i > 0 {
        assert r[i] == t[i - 1] && r[j] == t[j - 1];
      } else {
        assert r[j] in t;
      }
    }
  }

  lemma {:induction false} InsertSorted<T>(key: T -> Key, x: T, s: seq<T>)
    requires SortedBy(key, s)
    ensures SortedBy(key, Insert(key, x, s))
  {
    if s == [] {
    } else if KeyLess(key(x), key(s[0])) {
      ConsSorted(key, x, s);
    } else {
      var tail := Insert(key, x, s[1..]);
      assert SortedBy(key, s[1..]);
      InsertSorted(key, x, s[1..]);
      forall y | y in tail ensures !KeyLess(key(y), key(s[0])) {
        assert y in multiset(tail);
        if y != x {
          assert y in s;
          FirstIsLeast(key, s, y);
        }
      }
      ConsLeast(key, s[0], tail);
    }
  }

  /** The sort's output is ordered by key. */
  lemma {:induction false} SortBySorted<T>(key: T -> Key, s: seq<T>)
    ensures SortedBy(key, SortBy(key, s))
  {
    if s != [] {
      SortBySorted(key, s[..|s| - 1]);
      InsertSorted(key, s[|s| - 1], SortBy(key, s[..|s| - 1]));
    }
  }

  /** When `x`'s key is below every key of `s`, no element of `s` shares
      it, so `x` is the only element of its key in `[x] + s`. */
  lemma ConsStable<T>(key: T -> Key, x: T, s: seq<T>, k: Key)
    requires SortedBy(key, s) && s != [] && KeyLess(key(x), key(s[0]))
    ensures WithKey(key, [x] + s, k) == WithKey(key, s, k) + (if key(x) == k then [x] else [])
  {
    assert ([x] + s)[1..] == s;
    if key(x) == k {
      forall i | 0 <= i < |s| ensures key(s[i]) != k {
        FirstIsLeast(key, s, s[i]);
        KeyLessLe(key(x), key(s[0]), key(s[i]));
        KeyLessIrreflexive(k);
      }
      WithKeyNone(key, s, k);
    }
  }

  /** One step of `InsertStable` past an element that stays in front. */
  lemma InsertStableStep<T>(key: T -> Key, x: T, s: seq<T>, k: Key)
    requires s != [] && !KeyLess(key(x), key(s[0]))
    requires WithKey(key, Insert(key, x, s[1..]), k) == WithKey(key, s[1..], k) + (if key(x) == k then [x] else [])
    ensures WithKey(key, Insert(key, x, s), k) == WithKey(key, s, k) + (if key(x) == k then [x] else [])
  {
    var rest := Insert(key, x, s[1..]);
    var head, own := if key(s[0]) == k then [s[0]] else [], if key(x) == k then [x] else [];
    calc {
      WithKey(key, Insert(key, x, s), k);
      { assert Insert(key, x, s) == [s[0]] + rest; }
      WithKey(key, [s[0]] + rest, k);
      { WithKeyCons(key, s[0], rest, k); }
      head + WithKey(key, rest, k);
      head + (WithKey(key, s[1..], k) + own);
      { AppendAssoc(head, WithKey(key, s[1..], k), own); }
      (head + WithKey(key, s[1..], k)) + own;
      { WithKeyCons(key, s[0], s[1..], k); }
      WithKey(key, [s[0]] + s[1..], k) + own;
      { HeadTail(s); }
      WithKey(key, s, k) + own;
    }
  }

  lemma AppendAssoc<T>(a: seq<T>, b: seq<T>, c: seq<T>)
    ensures a + (b + c) == (a + b) + c
  {
  }

  lemma HeadTail<T>(s: seq<T>)
    requires s != []
    ensures [s[0]] + s[1..] == s
  {
  }

  lemma WithKeyCons<T>(key: T -> Key, y: T, t: seq<T>, k: Key)
    ensures WithKey(key, [y] + t, k) == (if key(y) == k then [y] else []) + WithKey(key, t, k)
  {
    assert ([y] + t)[1..] == t;
  }

  /** Inserting into a sorted sequence puts `x` after every element with
      the same key. */
  lemma {:induction false} InsertStable<T>(key: T -> Key, x: T, s: seq<T>, k: Key)
    requires SortedBy(key, s)
    ensures WithKey(key, Insert(key, x, s), k) == WithKey(key, s, k) + (if key(x) == k then [x] else [])
  {
    if s == [] {
      assert [x][1..] == [];
    } else if KeyLess(key(x), key(s[0])) {
      ConsStable(key, x, s, k);
    } else {
      SortedTail(key, s);
      InsertStable(key, x, s[1..], k);
      InsertStableStep(key, x, s, k);
    }
  }

  /** Stability: for every key, the elements with that key appear in the
      output in the same order as in the input. */
  lemma {:induction false} SortByStable<T>(key: T -> Key, s: seq<T>, k: Key)
    ensures WithKey(key, SortBy(key, s), k) == WithKey(key, s, k)
  {
    if s != [] {
      var init, last := s[..|s| - 1], s[|s| - 1];
      assert s == init + [last];
      assert SortBy(key, s) == Insert(key, last, SortBy(key, init));
      SortByStable(key, init, k);
      SortBySorted(key, init);
      InsertStable(key, last, SortBy(key, init), k);
      WithKeyAppend(key, init, [last], k);
      assert WithKey(key, [last], k) == if key(last) == k then [last] else [] by {
        assert [last][1..] == [];
      }
    }
  }

  lemma {:induction false} InWithKey<T>(key: T -> Key, s: seq<T>, k: Key, y: T)
    requires y in WithKey(key, s, k)
    ensures y in s && key(y) == k
  {
    if s != [] && !(key(s[0]) == k && y == s[0]) {
      InWithKey(key, s[1..], k, y);
    }
  }

  /** Sequences that list the same elements under every key are both
      empty or both non-empty. */
  lemma SameWithKeyBothEmpty<T>(key: T -> Key, t: seq<T>, u: seq<T>)
    requires forall k :: WithKey(key, t, k) == WithKey(key, u, k)
    ensures t == [] <==> u == []
  {
    if t != [] {
      assert WithKey(key, t, key(t[0])) != [];
      assert WithKey(key, u, key(t[0])) != [];
    }
    if u != [] {
      assert WithKey(key, u, key(u[0])) != [];
      assert WithKey(key, t, key(u[0])) != [];
    }
  }

  /** Two non-empty key-ordered sequences that list the same elements under
      every key start with the same element, and their tails again list the
      same elements under every key. */
  lemma SameFirst<T>(key: T -> Key, t: seq<T>, u: seq<T>)
    requires t != [] && u != []
    requires SortedBy(key, t) && SortedBy(key, u)
    requires forall k :: WithKey(key, t, k) == WithKey(key, u, k)
    ensures t[0] == u[0]
    ensures forall k :: WithKey(key, t[1..], k) == WithKey(key, u[1..], k)
  {
    var k0 := key(t[0]);
    if key(u[0]) != k0 {
      KeyLessTotal(key(u[0]), k0);
      if KeyLess(key(u[0]), k0) {
        assert WithKey(key, u, key(u[0])) != [];
        var y := WithKey(key, t, key(u[0]))[0];
        InWithKey(key, t, key(u[0]), y);
        FirstIsLeast(key, t, y);
      } else {
        assert WithKey(key, t, k0) != [];
        var y := WithKey(key, u, k0)[0];
        InWithKey(key, u, k0, y);
        FirstIsLeast(key, u, y);
      }
      assert false;
    }
    assert WithKey(key, t, k0)[0] == t[0];
    assert WithKey(key, u, k0)[0] == u[0];
    forall k ensures WithKey(key, t[1..], k) == WithKey(key, u[1..], k) {
      var head := if key(t[0]) == k then [t[0]] else [];
      assert WithKey(key, t, k) == head + WithKey(key, t[1..], k);
      assert WithKey(key, u, k) == head + WithKey(key, u[1..], k);
      assert WithKey(key, t[1..], k) == WithKey(key, t, k)[|head|..];
      assert WithKey(key, u[1..], k) == WithKey(key, u, k)[|head|..];
    }
  }

  /** Two key-ordered sequences that list the elements of every key in the
      same order are the same sequence. */
  lemma {:induction false} SortedByUnique<T>(key: T -> Key, t: seq<T>, u: seq<T>)
    requires SortedBy(key, t) && SortedBy(key, u)
    requires forall k :: WithKey(key, t, k) == WithKey(key, u, k)
    ensures t == u
    decreases |t|
  {
    SameWithKeyBothEmpty(key, t, u);
    if t != [] {
      SameFirst(key, t, u);
      assert SortedBy(key, t[1..]) && SortedBy(key, u[1..]);
      SortedByUnique(key, t[1..], u[1..]);
      assert t == [t[0]] + t[1..] && u == [u[0]] + u[1..];
    }
  }

  function KeyOf(h: Host): Key
  {
    HostSortKey(h.name)
  }

  /** The hosts in the order `sorted(..., key=host_sort_key)` lists them. */
  function SortHosts(hosts: seq<Host>): seq<Host>
  {
    SortBy(KeyOf, hosts)
  }

  /** Inserting a host by the key of its name inserts its name into the
      names by the same key. */
  lemma {:induction false} NamesInsert(x: Host, s: seq<Host>)
    ensures Names(Insert(KeyOf, x, s)) == Insert(HostSortKey, x.name, Names(s))
  {
    if s != [] {
      var ns := Names(s);
      assert ns == [s[0].name] + Names(s[1..]);
      assert ns[0] == s[0].name && ns[1..] == Names(s[1..]);
      if KeyLess(KeyOf(x), KeyOf(s[0])) {
        NamesAppend([x], s);
      } else {
        NamesInsert(x, s[1..]);
        NamesAppend([s[0]], Insert(KeyOf, x, s[1..]));
      }
    }
  }

  /** Sorting the hosts by the key of their names lists their names exactly
      as sorting the names themselves does: the model's sort is
      `sorted(nodes.keys(), key=host_sort_key)`. */
  lemma {:induction false} SortHostsNames(hosts: seq<Host>)
    ensures Names(SortHosts(hosts)) == SortBy(HostSortKey, Names(hosts))
  {
    if hosts != [] {
      var init, last := hosts[..|hosts| - 1], hosts[|hosts| - 1];
      assert hosts == init + [last];
      NamesAppend(init, [last]);
      var ns := Names(hosts);
      assert ns == Names(init) + [last.name];
      assert ns[..|ns| - 1] == Names(init) && ns[|ns| - 1] == last.name;
      SortHostsNames(init);
      NamesInsert(last, SortHosts(init));
    }
  }

  /** What Python's `sorted` promises, for the hosts: the output is the
      input rearranged, ordered by key, and stable for tied keys. */
  lemma SortHostsCorrect(hosts: seq<Host>)
    ensures multiset(SortHosts(hosts)) == multiset(hosts)
    ensures SortedBy(KeyOf, SortHosts(hosts))
    ensures forall k :: WithKey(KeyOf, SortHosts(hosts), k) == WithKey(KeyOf, hosts, k)
  {
    SortBySorted(KeyOf, hosts);
    forall k ensures WithKey(KeyOf, SortHosts(hosts), k) == WithKey(KeyOf, hosts, k) {
      SortByStable(KeyOf, hosts, k);
    }
  }

  /** The sort is the only stable sort: any arrangement of the hosts that is
      ordered by key and keeps hosts with equal keys in input order is the
      one `SortHosts` gives, whatever stable algorithm produced it. */
  lemma StableSortIsSortHosts(hosts: seq<Host>, t: seq<Host>)
    requires SortedBy(KeyOf, t)
    requires forall k :: WithKey(KeyOf, t, k) == WithKey(KeyOf, hosts, k)
    ensures t == SortHosts(hosts)
  {
    SortHostsCorrect(hosts);
    SortedByUnique(KeyOf, t, SortHosts(hosts));
  }

  /** Names non-decreasing by key. */
  predicate NamesSorted(names: seq<string>)
  {
    SortedBy(HostSortKey, names)
  }

  /** Filtering a key-ordered sequence of hosts by role keeps the names in
      key order, when a host's key is the key of its name. */
  lemma {:induction false} NamesWithRoleSortedBy(key: Host -> Key, nameKey: string -> Key, s: seq<Host>, r: Role)
    requires forall h :: key(h) == nameKey(h.name)
    requires SortedBy(key, s)
    ensures SortedBy(nameKey, NamesWithRole(s, r))
  {
    if s != [] {
      assert SortedBy(key, s[1..]);
      NamesWithRoleSortedBy(key, nameKey, s[1..], r);
      var tail := NamesWithRole(s[1..], r);
      if s[0].role == r {
        var ns := [s[0].name] + tail;
        forall i, j | 0 <= i < j < |ns| ensures !KeyLess(nameKey(ns[j]), nameKey(ns[i])) {
          if i == 0 {
            InNamesWithRole(s[1..], r, ns[j]);
            assert ns[j] in tail;
            var m :| 0 <= m < |s[1..]| && s[1..][m].name == ns[j] && s[1..][m].role == r;
            assert key(s[m + 1]) == nameKey(ns[j]);
            assert !KeyLess(key(s[m + 1]), key(s[0]));
          } else {
            assert ns[i] == tail[i - 1] && ns[j] == tail[j - 1];
          }
        }
      }
    }
  }

  /** Filtering the sorted hosts by role keeps the names in key order. */
  lemma NamesWithRoleSorted(s: seq<Host>, r: Role)
    requires SortedBy(KeyOf, s)
    ensures NamesSorted(NamesWithRole(s, r))
  {
    NamesWithRoleSortedBy(KeyOf, HostSortKey, s, r);
  }

  /** Insertion puts `x` at one position and leaves the rest in order. */
  lemma {:induction false} InsertPosition<T>(key: T -> Key, x: T, s: seq<T>) returns (k: nat)
    ensures k <= |s| && Insert(key, x, s) == s[..k] + [x] + s[k..]
  {
    if s == [] || KeyLess(key(x), key(s[0])) {
      k := 0;
    } else {
      var k' := InsertPosition(key, x, s[1..]);
      k := k' + 1;
      assert s[..k] == [s[0]] + s[1..][..k'] && s[k..] == s[1..][k'..];
    }
  }

  /** Inserting adds the new host's name to its role's list and nothing else. */
  lemma InsertNamesWithRole(key: Host -> Key, x: Host, s: seq<Host>, r: Role)
    ensures multiset(NamesWithRole(Insert(key, x, s), r))
            == multiset(NamesWithRole(s, r)) + (if x.role == r then multiset{x.name} else multiset{})
  {
    var k := InsertPosition(key, x, s);
    var before, after := s[..k], s[k..];
    var own := if x.role == r then [x.name] else [];
    var nb, na := NamesWithRole(before, r), NamesWithRole(after, r);
    assert NamesWithRole(Insert(key, x, s), r) == nb + own + na by {
      assert NamesWithRole([x], r) == own by {
        assert [x][1..] == [];
      }
      NamesWithRoleAppend(before + [x], after, r);
      NamesWithRoleAppend(before, [x], r);
    }
    assert NamesWithRole(s, r) == nb + na by {
      assert s == before + after;
      NamesWithRoleAppend(before, after, r);
    }
    MultisetMiddle(nb, own, na);
    assert multiset(own) == if x.role == r then multiset{x.name} else multiset{};
  }

  lemma MultisetMiddle<T>(a: seq<T>, m: seq<T>, b: seq<T>)
    ensures multiset(a + m + b) == multiset(a + b) + multiset(m)
  {
  }

  /** Sorting changes neither which hosts have a role nor how many. */
  lemma {:induction false} SortHostsNamesWithRole(s: seq<Host>, r: Role)
    ensures multiset(NamesWithRole(SortHosts(s), r)) == multiset(NamesWithRole(s, r))
  {
    if s != [] {
      var init, last := s[..|s| - 1], s[|s| - 1];
      assert s == init + [last];
      assert SortHosts(s) == Insert(KeyOf, last, SortHosts(init));
      SortHostsNamesWithRole(init, r);
      InsertNamesWithRole(KeyOf, last, SortHosts(init), r);
      NamesWithRoleAppend(init, [last], r);
      assert NamesWithRole([last], r) == if last.role == r then [last.name] else [] by {
        assert [last][1..] == [];
      }
    }
  }

  /** Hosts named `p2`, `p10`, `p1` (as `worker-2`, `worker-10`,
      `worker-1`) sort to `p1`, `p2`, `p10`, whatever their addresses:
      numbers compare as numbers, not as text. */
  lemma WorkersSortNumerically(p: string, ip2: string, ip10: string, ip1: string)
    requires p == "" || !IsDigit(p[|p| - 1])
    ensures Names(SortHosts([Host(p + "2", ip2, Worker),
                             Host(p + "10", ip10, Worker),
                             Host(p + "1", ip1, Worker)]))
            == [p + "1", p + "2", p + "10"]
  {
    var a, b, c := Host(p + "2", ip2, Worker), Host(p + "10", ip10, Worker),
                   Host(p + "1", ip1, Worker);
    NumberedKeys(p);
    InsertExample(a, b, c, p);
    NamesOfThree(c, a, b);
  }

  lemma NamesOfThree(a: Host, b: Host, c: Host)
    ensures Names([a, b, c]) == [a.name, b.name, c.name]
  {
    assert [a, b, c][1..] == [b, c] && [b, c][1..] == [c] && [c][1..] == [];
    assert Names([c]) == [c.name];
    assert Names([b, c]) == [b.name, c.name];
  }

  lemma NumberedKeys(p: string)
    requires p == "" || !IsDigit(p[|p| - 1])
    ensures HostSortKey(p + "2") == Key(p, 2)
    ensures HostSortKey(p + "10") == Key(p, 10)
    ensures HostSortKey(p + "1") == Key(p, 1)
  {
    KeyOfNumberedName(p, "2");
    KeyOfNumberedName(p, "1");
    TenKey(p);
  }

  lemma TenKey(p: string)
    requires p == "" || !IsDigit(p[|p| - 1])
    ensures HostSortKey(p + "10") == Key(p, 10)
  {
    KeyOfNumberedName(p, "10");
    assert "10"[..1] == "1";
  }

  /** Sorting three hosts whose keys share a prefix and carry the numbers
      2, 10 and 1. */
  lemma InsertExample(a: Host, b: Host, c: Host, p: string)
    requires KeyOf(a) == Key(p, 2) && KeyOf(b) == Key(p, 10) && KeyOf(c) == Key(p, 1)
    ensures SortHosts([a, b, c]) == [c, a, b]
  {
    StrLessIrreflexive(p);
    SortTwoInOrder(KeyOf, a, b);
    SortThirdFirst(KeyOf, a, b, c);
  }

  lemma SortTwoInOrder<T>(key: T -> Key, a: T, b: T)
    requires !KeyLess(key(b), key(a))
    ensures SortBy(key, [a, b]) == [a, b]
  {
    assert [a, b][..1] == [a] && [a][..0] == [];
    assert SortBy(key, [a]) == [a];
    assert [a][1..] == [];
  }

  lemma SortThirdFirst<T>(key: T -> Key, a: T, b: T, c: T)
    requires SortBy(key, [a, b]) == [a, b] && KeyLess(key(c), key(a))
    ensures SortBy(key, [a, b, c]) == [c, a, b]
  {
    assert [a, b, c][..2] == [a, b];
  }
}
