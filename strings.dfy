/** The JavaScript string operations the translator uses: `split` on a one-character
    separator, `Array.prototype.join`, and number-to-string conversion. */
module Strings {

  /** `s.split(d)` for a one-character separator: always at least one part (the empty
      string splits into `[""]`), and no part contains the separator. */
  function Split(s: string, d: char): (parts: seq<string>)
    ensures |parts| >= 1
    ensures forall i :: 0 <= i < |parts| ==> d !in parts[i]
    decreases |s|
  {
    if |s| == 0 then [""]
    else
      var rest := Split(s[1..], d);
      if s[0] == d then [""] + rest
      else [[s[0]] + rest[0]] + rest[1..]
  }

  /** `parts.join(d)` for a non-empty list of parts. */
  function Join(parts: seq<string>, d: char): string
    requires |parts| >= 1
    decreases |parts|
  {
    if |parts| == 1 then parts[0] else parts[0] + [d] + Join(parts[1..], d)
  }

  /** Splitting loses nothing: joining the parts back gives the original string. */
  lemma {:induction false} JoinSplit(s: string, d: char)
    ensures Join(Split(s, d), d) == s
    decreases |s|
  {
    if |s| > 0 {
      JoinSplit(s[1..], d);
      var rest := Split(s[1..], d);
      if s[0] != d && |rest| > 1 {
        assert Split(s, d)[1..] == rest[1..];
        assert Join(Split(s, d), d) == [s[0]] + rest[0] + [d] + Join(rest[1..], d);
      }
    }
  }

  /** A string without the separator is a single part. */
  lemma {:induction false} SplitWithoutSeparator(p: string, d: char)
    requires d !in p
    ensures Split(p, d) == [p]
    decreases |p|
  {
    if |p| > 0 {
      SplitWithoutSeparator(p[1..], d);
      assert [p[0]] + p[1..] == p;
    }
  }

  /** The text before the first separator is the first part; the rest is split on. */
  lemma {:induction false} SplitAtSeparator(p: string, rest: string, d: char)
    requires d !in p
    ensures Split(p + [d] + rest, d) == [p] + Split(rest, d)
    decreases |p|
  {
    var s := p + [d] + rest;
    if |p| == 0 {
      assert s[1..] == rest;
    } else {
      assert s[1..] == p[1..] + [d] + rest;
      SplitAtSeparator(p[1..], rest, d);
      assert [p[0]] + p[1..] == p;
    }
  }

  /** Two strings with the same parts are the same string. */
  lemma SplitInjective(s: string, t: string, d: char)
    requires Split(s, d) == Split(t, d)
    ensures s == t
  {
    JoinSplit(s, d);
    JoinSplit(t, d);
  }

  /** `path.split('.').slice(-1)[0]`: the last part. */
  function LastPart(s: string, d: char): string {
    var parts := Split(s, d); parts[|parts| - 1]
  }

  /** `path.split('.')` after `pop()`: all parts but the last. */
  function InitParts(s: string, d: char): seq<string> {
    var parts := Split(s, d); parts[..|parts| - 1]
  }

  /** The last part is the text after the last separator: a suffix of the string
      without the separator, preceded by the separator unless it is the whole string. */
  lemma {:induction false} LastPartIsSuffix(s: string, d: char)
    ensures var l := LastPart(s, d);
            d !in l && |l| <= |s| && s[|s| - |l|..] == l &&
            (|l| < |s| ==> s[|s| - |l| - 1] == d) &&
            (|Split(s, d)| == 1 <==> l == s)
    decreases |s|
  {
    if |s| > 0 {
      LastPartIsSuffix(s[1..], d);
      var rest := Split(s[1..], d);
      if s[0] == d || |rest| > 1 {
        assert LastPart(s, d) == rest[|rest| - 1];
      } else {
        assert LastPart(s, d) == [s[0]] + rest[0];
      }
    }
  }

  /** A string is determined by its leading parts and its last part. */
  lemma {:induction false} InitLastInjective(s: string, t: string, d: char)
    requires InitParts(s, d) == InitParts(t, d) && LastPart(s, d) == LastPart(t, d)
    ensures s == t
  {
    var ps, pt := Split(s, d), Split(t, d);
    assert ps == ps[..|ps| - 1] + [ps[|ps| - 1]];
    assert pt == pt[..|pt| - 1] + [pt[|pt| - 1]];
    SplitInjective(s, t, d);
  }

  /** `buffer.join('')`. */
  function Concat(pieces: seq<string>): string
    decreases |pieces|
  {
    if pieces == [] then "" else Concat(pieces[..|pieces| - 1]) + pieces[|pieces| - 1]
  }

  /** Joining a buffer that was appended to in two goes. */
  lemma {:induction false} ConcatAppend(a: seq<string>, b: seq<string>)
    ensures Concat(a + b) == Concat(a) + Concat(b)
    decreases |b|
  {
    if b != [] {
      var b' := b[..|b| - 1];
      assert (a + b)[..|a + b| - 1] == a + b';
      ConcatAppend(a, b');
    } else {
      assert a + b == a;
    }
  }

  function DigitChar(n: nat): char
    requires n < 10
  {
    "0123456789"[n]
  }

  /** The decimal text of a non-negative JavaScript number, as `'' + i` writes it. */
  function NatToString(n: nat): (s: string)
    ensures |s| >= 1
    ensures forall i :: 0 <= i < |s| ==> '0' <= s[i] <= '9'
    decreases n
  {
    if n < 10 then [DigitChar(n)] else NatToString(n / 10) + [DigitChar(n % 10)]
  }
}
