/** Python's `sep.join(parts)`, `''.join(parts)` and `s.split(c)` on strings. */
module Strings {

  /** `sep.join(parts)`: separators only between parts. */
  function Join(sep: string, parts: seq<string>): string
    decreases |parts|
  {
    if |parts| == 0 then ""
    else if |parts| == 1 then parts[0]
    else parts[0] + sep + Join(sep, parts[1..])
  }

  /** `''.join(parts)`. */
  function Concat(parts: seq<string>): string
    decreases |parts|
  {
    if |parts| == 0 then "" else parts[0] + Concat(parts[1..])
  }

  /** `s.split(c)`: the pieces between occurrences of `c`, always at least one. */
  function Split(s: string, c: char): (r: seq<string>)
    ensures |r| >= 1
    decreases |s|
  {
    if |s| == 0 then [""]
    else if s[0] == c then [""] + Split(s[1..], c)
    else
      var t := Split(s[1..], c);
      [[s[0]] + t[0]] + t[1..]
  }

  /** The string with every occurrence of `c` removed. */
  function Remove(s: string, c: char): string
    decreases |s|
  {
    if |s| == 0 then "" else (if s[0] == c then "" else [s[0]]) + Remove(s[1..], c)
  }

  lemma {:induction false} JoinSnoc(sep: string, parts: seq<string>, x: string)
    ensures Join(sep, parts + [x]) == if parts == [] then x else Join(sep, parts) + sep + x
    decreases |parts|
  {
    if |parts| >= 2 {
      assert (parts + [x])[1..] == parts[1..] + [x];
      JoinSnoc(sep, parts[1..], x);
    } else if |parts| == 1 {
      assert parts + [x] == [parts[0], x];
    }
  }

  /** Joining two lists of parts is joining their joins, with one separator
      between them when both are non-empty. */
  lemma {:induction false} JoinAppend(sep: string, a: seq<string>, b: seq<string>)
    ensures Join(sep, a + b) ==
      if a == [] then Join(sep, b)
      else if b == [] then Join(sep, a)
      else Join(sep, a) + sep + Join(sep, b)
    decreases |a|
  {
    if a == [] {
      assert a + b == b;
    } else if b == [] {
      assert a + b == a;
    } else if |a| == 1 {
      assert a + b == [a[0]] + b;
      assert ([a[0]] + b)[1..] == b;
    } else {
      assert (a + b)[1..] == a[1..] + b;
      JoinAppend(sep, a[1..], b);
      assert Join(sep, a + b) == a[0] + sep + (Join(sep, a[1..]) + sep + Join(sep, b));
    }
  }

  /** The length of a join: every part, plus one separator per gap. */
  lemma {:induction false} JoinLength(sep: string, parts: seq<string>)
    ensures |Join(sep, parts)| == SumLengths(parts) + (if parts == [] then 0 else (|parts| - 1) * |sep|)
    decreases |parts|
  {
    if |parts| >= 2 {
      JoinLength(sep, parts[1..]);
    }
  }

  function SumLengths(parts: seq<string>): nat
    decreases |parts|
  {
    if |parts| == 0 then 0 else |parts[0]| + SumLengths(parts[1..])
  }

  lemma {:induction false} ConcatAppend(a: seq<string>, b: seq<string>)
    ensures Concat(a + b) == Concat(a) + Concat(b)
    decreases |a|
  {
    if a == [] {
      assert a + b == b;
    } else {
      assert (a + b)[1..] == a[1..] + b;
      ConcatAppend(a[1..], b);
    }
  }

  lemma {:induction false} ConcatLength(parts: seq<string>)
    ensures |Concat(parts)| == SumLengths(parts)
    decreases |parts|
  {
    if parts != [] {
      ConcatLength(parts[1..]);
    }
  }

  /** `c.join(s.split(c)) == s`, and no piece contains `c`. */
  lemma {:induction false} SplitJoin(s: string, c: char)
    ensures Join([c], Split(s, c)) == s
    ensures forall i :: 0 <= i < |Split(s, c)| ==> c !in Split(s, c)[i]
    decreases |s|
  {
    if |s| > 0 {
      SplitJoin(s[1..], c);
      var t := Split(s[1..], c);
      if s[0] == c {
        assert Split(s, c) == [""] + t;
        if |t| == 1 {
          assert Join([c], [""] + t) == "" + [c] + t[0];
        } else {
          assert ([""] + t)[1..] == t;
        }
        assert s == [s[0]] + s[1..];
      } else {
        var r := [[s[0]] + t[0]] + t[1..];
        assert Split(s, c) == r;
        if |t| == 1 {
          assert Join([c], r) == [s[0]] + t[0];
        } else {
          assert r[1..] == t[1..];
          assert Join([c], t) == t[0] + [c] + Join([c], t[1..]);
        }
        assert s == [s[0]] + s[1..];
        forall i | 0 <= i < |r| ensures c !in r[i] {
          if i > 0 { assert r[i] == t[i]; }
        }
      }
    }
  }

  /** Splitting `a + [c] + b`, where `b` has no `c`, ends with the piece `b`
      after the pieces of `a`. */
  lemma {:induction false} SplitLast(a: string, b: string, c: char)
    requires c !in b
    ensures Split(a + [c] + b, c) == Split(a, c) + [b]
    decreases |a|
  {
    if |a| == 0 {
      assert a + [c] + b == [c] + b;
      assert ([c] + b)[1..] == b;
      SplitNone(b, c);
    } else {
      assert (a + [c] + b)[1..] == a[1..] + [c] + b;
      SplitLast(a[1..], b, c);
      var t := Split(a[1..], c);
      assert Split(a[1..] + [c] + b, c) == t + [b];
      if a[0] != c {
        assert (t + [b])[0] == t[0];
        assert (t + [b])[1..] == t[1..] + [b];
      }
    }
  }

  /** A string without `c` splits into itself. */
  lemma {:induction false} SplitNone(s: string, c: char)
    requires c !in s
    ensures Split(s, c) == [s]
    decreases |s|
  {
    if |s| > 0 {
      SplitNone(s[1..], c);
      assert s == [s[0]] + s[1..];
    }
  }

  /** Concatenating the pieces of a split is removing the separator. */
  lemma {:induction false} ConcatSplit(s: string, c: char)
    ensures Concat(Split(s, c)) == Remove(s, c)
    decreases |s|
  {
    if |s| > 0 {
      ConcatSplit(s[1..], c);
      var t := Split(s[1..], c);
      if s[0] == c {
        assert ([""] + t)[1..] == t;
      } else {
        var r := [[s[0]] + t[0]] + t[1..];
        assert r[1..] == t[1..];
        assert Concat(t) == t[0] + Concat(t[1..]);
      }
    }
  }
}
