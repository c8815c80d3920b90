/** Joining a list of strings with a one-character separator, as Python's
    `sep.join(parts)` does, and its inverse, `s.split(sep)`. */
module Text {

  /** `[sep].join(parts)`: the parts with one separator between neighbours. */
  function Join(sep: char, parts: seq<string>): (s: string)
  {
    if |parts| == 0 then ""
    else if |parts| == 1 then parts[0]
    else parts[0] + [sep] + Join(sep, parts[1..])
  }

  /** `s.split(sep)`: the maximal separator-free pieces between separators;
      the empty string splits into one empty piece. */
  function Split(sep: char, s: string): (parts: seq<string>)
    ensures |parts| >= 1
    ensures forall i :: 0 <= i < |parts| ==> sep !in parts[i]
  {
    if s == [] then [[]]
    else
      var rest := Split(sep, s[1..]);
      if s[0] == sep then [[]] + rest
      else [[s[0]] + rest[0]] + rest[1..]
  }

  /** Joining what was split gives back the text. */
  lemma {:induction false} JoinSplit(sep: char, s: string)
    ensures Join(sep, Split(sep, s)) == s
  {
    if s != [] {
      var rest := Split(sep, s[1..]);
      JoinSplit(sep, s[1..]);
      if s[0] == sep {
        assert Split(sep, s) == [[]] + rest;
        assert Join(sep, Split(sep, s)) == [] + [sep] + Join(sep, rest);
      } else {
        var parts := Split(sep, s);
        assert parts == [[s[0]] + rest[0]] + rest[1..];
        if |rest| == 1 {
          assert Join(sep, parts) == [s[0]] + rest[0];
        } else {
          assert parts[1..] == rest[1..];
          assert Join(sep, parts) == [s[0]] + rest[0] + [sep] + Join(sep, rest[1..]);
        }
      }
    }
  }

  /** A separator-free string splits into itself alone. */
  lemma {:induction false} SplitPlain(sep: char, w: string)
    requires sep !in w
    ensures Split(sep, w) == [w]
  {
    if w != [] {
      SplitPlain(sep, w[1..]);
      assert [w[0]] + w[1..] == w;
    }
  }

  /** Splitting at the first separator. */
  lemma {:induction false} SplitAtSeparator(sep: char, w: string, t: string)
    requires sep !in w
    ensures Split(sep, w + [sep] + t) == [w] + Split(sep, t)
  {
    if w == [] {
      assert w + [sep] + t == [sep] + t;
      assert ([sep] + t)[1..] == t;
    } else {
      assert (w + [sep] + t)[1..] == w[1..] + [sep] + t;
      SplitAtSeparator(sep, w[1..], t);
      assert [w[0]] + w[1..] == w;
    }
  }

  /** Splitting what was joined gives back the parts, provided there is at
      least one part and no part contains the separator. */
  lemma {:induction false} SplitJoin(sep: char, parts: seq<string>)
    requires |parts| >= 1
    requires forall i :: 0 <= i < |parts| ==> sep !in parts[i]
    ensures Split(sep, Join(sep, parts)) == parts
  {
    if |parts| == 1 {
      SplitPlain(sep, parts[0]);
    } else {
      SplitJoin(sep, parts[1..]);
      SplitAtSeparator(sep, parts[0], Join(sep, parts[1..]));
      assert [parts[0]] + parts[1..] == parts;
    }
  }

  /** When the last of at least two parts is empty, the joined text ends
      with the separator. */
  lemma {:induction false} JoinTrailingEmpty(sep: char, parts: seq<string>)
    requires |parts| >= 2 && parts[|parts| - 1] == ""
    ensures Join(sep, parts) == Join(sep, parts[..|parts| - 1]) + [sep]
  {
    if |parts| == 2 {
      assert parts[..1] == [parts[0]];
    } else {
      JoinTrailingEmpty(sep, parts[1..]);
      assert parts[1..][..|parts| - 2] == parts[..|parts| - 1][1..];
    }
  }

  /** The joined text begins with the first part. */
  lemma {:induction false} JoinStartsWithFirst(sep: char, parts: seq<string>)
    requires |parts| >= 1
    ensures |Join(sep, parts)| >= |parts[0]|
    ensures Join(sep, parts)[..|parts[0]|] == parts[0]
  {
    if |parts| > 1 {
      assert (parts[0] + [sep] + Join(sep, parts[1..]))[..|parts[0]|] == parts[0];
    }
  }

  /** A character other than the separator occurs in the joined text only if
      it occurs in some part. */
  lemma {:induction false} JoinAvoids(sep: char, parts: seq<string>, c: char)
    requires c != sep
    requires forall i :: 0 <= i < |parts| ==> c !in parts[i]
    ensures c !in Join(sep, parts)
  {
    if |parts| > 1 {
      JoinAvoids(sep, parts[1..], c);
    }
  }
}
