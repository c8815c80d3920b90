/** `host_sort_key`: a host name splits into the text before its trailing
    run of decimal digits and the value of that run (0 when there is none).
    Keys are ordered as Python orders the tuple `(prefix, n)`: by prefix,
    code point by code point, then by number. */
module SortKey {

  datatype Key = Key(prefix: string, number: nat)

  predicate IsDigit(c: char)
  {
    '0' <= c <= '9'
  }

  predicate AllDigits(s: string)
  {
    forall i :: 0 <= i < |s| ==> IsDigit(s[i])
  }

  /** `int(s)` for a run of ASCII digits; leading zeros add nothing. */
  function DecimalValue(s: string): nat
    requires AllDigits(s)
  {
    if s == [] then 0
    else 10 * DecimalValue(s[..|s| - 1]) + ((s[|s| - 1] as int) - ('0' as int))
  }

  /** Where `$` lets the match end: before a final newline, else at the end. */
  function MatchEnd(name: string): (e: nat)
    ensures e <= |name| && e + 1 >= |name|
    ensures e < |name| <==> |name| > 0 && name[|name| - 1] == '\n'
  {
    if |name| > 0 && name[|name| - 1] == '\n' then |name| - 1 else |name|
  }

  /** Scans backwards from `end` over digits: the start of the maximal digit
      run that ends at `end`. */
  function DigitRunStart(name: string, end: nat): (start: nat)
    requires end <= |name|
    ensures start <= end
    ensures AllDigits(name[start..end])
    ensures start == 0 || !IsDigit(name[start - 1])
  {
    if end > 0 && IsDigit(name[end - 1]) then
      var start := DigitRunStart(name, end - 1);
      assert name[start..end] == name[start..end - 1] + [name[end - 1]];
      start
    else end
  }

  /** The key of a host name: the text before the digit run that ends where
      `$` matches, with the run's value, or the whole name with 0. */
  function HostSortKey(name: string): Key
  {
    var e := MatchEnd(name);
    var start := DigitRunStart(name, e);
    if start < e then Key(name[..start], DecimalValue(name[start..e])) else Key(name, 0)
  }

  /** When a digit run ends where `$` matches, the prefix is everything
      before the maximal such run (so it does not end in a digit) and the
      number is the run's value; otherwise the key is the whole name with
      number 0. */
  lemma HostSortKeySpec(name: string)
    ensures var k, e := HostSortKey(name), MatchEnd(name);
      if e > 0 && IsDigit(name[e - 1]) then
        && |k.prefix| < e
        && k.prefix == name[..|k.prefix|]
        && AllDigits(name[|k.prefix|..e])
        && (k.prefix == "" || !IsDigit(k.prefix[|k.prefix| - 1]))
        && k.number == DecimalValue(name[|k.prefix|..e])
      else
        k == Key(name, 0)
  {
    var e := MatchEnd(name);
    var start := DigitRunStart(name, e);
    if e > 0 && IsDigit(name[e - 1]) {
      assert start < e;
      assert name[..start][..start] == name[..start];
    }
  }

  /** Python's `<` on strings: lexicographic by code point, a proper prefix
      being smaller. */
  predicate StrLess(a: string, b: string)
  {
    if a == [] then b != []
    else if b == [] then false
    else if a[0] != b[0] then a[0] < b[0]
    else StrLess(a[1..], b[1..])
  }

  /** Python's `<` on the tuple `(prefix, number)`. */
  predicate KeyLess(a: Key, b: Key)
  {
    StrLess(a.prefix, b.prefix) || (a.prefix == b.prefix && a.number < b.number)
  }

  lemma {:induction false} StrLessIrreflexive(a: string)
    ensures !StrLess(a, a)
  {
    if a != [] {
      StrLessIrreflexive(a[1..]);
    }
  }

  lemma {:induction false} StrLessTransitive(a: string, b: string, c: string)
    requires StrLess(a, b) && StrLess(b, c)
    ensures StrLess(a, c)
  {
    if a != [] && b != [] && c != [] && a[0] == b[0] && b[0] == c[0] {
      StrLessTransitive(a[1..], b[1..], c[1..]);
    }
  }

  lemma {:induction false} StrLessTotal(a: string, b: string)
    requires a != b
    ensures StrLess(a, b) || StrLess(b, a)
  {
    if a != [] && b != [] && a[0] == b[0] {
      assert a == [a[0]] + a[1..] && b == [b[0]] + b[1..];
      StrLessTotal(a[1..], b[1..]);
    }
  }

  /** The key order is a strict total order. */
  lemma KeyLessIrreflexive(a: Key)
    ensures !KeyLess(a, a)
  {
    StrLessIrreflexive(a.prefix);
  }

  lemma KeyLessTransitive(a: Key, b: Key, c: Key)
    requires KeyLess(a, b) && KeyLess(b, c)
    ensures KeyLess(a, c)
  {
    if StrLess(a.prefix, b.prefix) && StrLess(b.prefix, c.prefix) {
      StrLessTransitive(a.prefix, b.prefix, c.prefix);
    }
  }

  lemma KeyLessTotal(a: Key, b: Key)
    requires a != b
    ensures KeyLess(a, b) || KeyLess(b, a)
  {
    if a.prefix != b.prefix {
      StrLessTotal(a.prefix, b.prefix);
    }
  }

  /** `a < b <= c` gives `a < c`. */
  lemma KeyLessLe(a: Key, b: Key, c: Key)
    requires KeyLess(a, b) && !KeyLess(c, b)
    ensures KeyLess(a, c)
  {
    if b != c {
      KeyLessTotal(b, c);
      KeyLessTransitive(a, b, c);
    }
  }

  /** `a <= b <= c` gives `a <= c`. */
  lemma KeyLeTransitive(a: Key, b: Key, c: Key)
    requires !KeyLess(b, a) && !KeyLess(c, b)
    ensures !KeyLess(c, a)
  {
    if KeyLess(c, a) {
      if a == b {
        assert false;
      }
      KeyLessTotal(a, b);
      KeyLessTransitive(c, a, b);
      assert false;
    }
  }

  /** A leading zero does not change a digit run's value. */
  lemma {:induction false} LeadingZero(s: string)
    requires AllDigits(s)
    ensures AllDigits("0" + s) && DecimalValue("0" + s) == DecimalValue(s)
  {
    if s != [] {
      LeadingZero(s[..|s| - 1]);
      assert ("0" + s)[..|s|] == "0" + s[..|s| - 1];
    }
  }

  /** The scan only looks at what lies before `end`. */
  lemma {:induction false} DigitRunStartPrefix(a: string, b: string, end: nat)
    requires end <= |a|
    ensures DigitRunStart(a + b, end) == DigitRunStart(a, end)
  {
    if end > 0 && IsDigit(a[end - 1]) {
      DigitRunStartPrefix(a, b, end - 1);
    }
  }

  /** Scanning back from inside a digit run that starts at `n`, after a
      non-digit or at the start, stops at `n`. */
  lemma {:induction false} DigitRunStartAt(name: string, n: nat, j: nat)
    requires n + j <= |name|
    requires forall i :: n <= i < n + j ==> IsDigit(name[i])
    requires n == 0 || !IsDigit(name[n - 1])
    ensures DigitRunStart(name, n + j) == n
  {
    if j > 0 {
      DigitRunStartAt(name, n, j - 1);
    }
  }

  /** The key of a name that ends, where `$` matches, in a digit run that
      starts at `n`. */
  lemma KeyOfRunAt(name: string, n: nat)
    requires n < |name| && name[|name| - 1] != '\n'
    requires forall i :: n <= i < |name| ==> IsDigit(name[i])
    requires n == 0 || !IsDigit(name[n - 1])
    ensures HostSortKey(name) == Key(name[..n], DecimalValue(name[n..]))
  {
    assert MatchEnd(name) == |name|;
    DigitRunStartAt(name, n, |name| - n);
    assert name[n..|name|] == name[n..];
  }

  /** The key of a prefix that does not end in a digit, followed by a digit
      run and nothing else, is that prefix with the run's value: the key
      takes such a name apart into the pieces it was made of. */
  lemma KeyOfNumberedName(p: string, d: string)
    requires AllDigits(d) && d != ""
    requires p == "" || !IsDigit(p[|p| - 1])
    ensures HostSortKey(p + d) == Key(p, DecimalValue(d))
  {
    var name := p + d;
    assert name[..|p|] == p && name[|p|..] == d;
    assert name[|name| - 1] == d[|d| - 1];
    forall i | |p| <= i < |name| ensures IsDigit(name[i]) {
      assert name[i] == d[i - |p|];
    }
    KeyOfRunAt(name, |p|);
  }

  /** Because `$` also matches before a final newline, a newline after a
      trailing number does not change the key. */
  lemma NewlineAfterNumberIgnored(name: string)
    requires |name| > 0 && IsDigit(name[|name| - 1])
    ensures HostSortKey(name + "\n") == HostSortKey(name)
  {
    var n := name + "\n";
    assert MatchEnd(n) == |name|;
    assert MatchEnd(name) == |name|;
    DigitRunStartPrefix(name, "\n", |name|);
    var start := DigitRunStart(name, |name|);
    assert start == DigitRunStart(name, |name| - 1);
    assert start < |name|;
    assert n[..start] == name[..start];
    assert n[start..|name|] == name[start..|name|];
  }

  /** The key is not injective: `node-01` and `node-1` both give
      `("node-", 1)`. */
  lemma LeadingZerosShareKey()
    ensures HostSortKey("node-01") == HostSortKey("node-1") == Key("node-", 1)
  {
    NodeZeroOneKey();
    NodeOneKey();
  }

  lemma NodeZeroOneKey()
    ensures HostSortKey("node-01") == Key("node-", 1)
  {
    LeadingZero("1");
    assert "0" + "1" == "01";
    KeyOfNumberedName("node-", "01");
    assert "node-" + "01" == "node-01";
  }

  lemma NodeOneKey()
    ensures HostSortKey("node-1") == Key("node-", 1)
  {
    KeyOfNumberedName("node-", "1");
    assert "node-" + "1" == "node-1";
  }

  /** `worker-2` comes before `worker-10` under the key order, although
      plain string order puts `worker-10` first. */
  lemma NumericSuffixOrder()
    ensures HostSortKey("worker-2") == Key("worker-", 2)
    ensures HostSortKey("worker-10") == Key("worker-", 10)
    ensures KeyLess(HostSortKey("worker-2"), HostSortKey("worker-10"))
    ensures StrLess("worker-10", "worker-2")
  {
    WorkerTwoKey();
    WorkerTenKey();
    StrLessIrreflexive("worker-");
    WorkerTextOrder();
  }

  lemma WorkerTwoKey()
    ensures HostSortKey("worker-2") == Key("worker-", 2)
  {
    KeyOfNumberedName("worker-", "2");
    assert "worker-" + "2" == "worker-2";
  }

  lemma WorkerTenKey()
    ensures HostSortKey("worker-10") == Key("worker-", 10)
  {
    KeyOfNumberedName("worker-", "10");
    assert "worker-" + "10" == "worker-10";
    assert "10"[..1] == "1";
  }

  lemma WorkerTextOrder()
    ensures StrLess("worker-10", "worker-2")
  {
    assert StrLess("10", "2");
    StrLessCommonPrefix("worker-", "10", "2");
    assert "worker-" + "10" == "worker-10" && "worker-" + "2" == "worker-2";
  }

  /** A shared prefix does not change the string order. */
  lemma {:induction false} StrLessCommonPrefix(p: string, a: string, b: string)
    ensures StrLess(p + a, p + b) == StrLess(a, b)
  {
    if p != [] {
      assert (p + a)[1..] == p[1..] + a && (p + b)[1..] == p[1..] + b;
      StrLessCommonPrefix(p[1..], a, b);
    } else {
      assert p + a == a && p + b == b;
    }
  }
}
