/** Python string operations used by the modelled code: `s.split(c)` for a one-character separator,
    its inverse `c.join(parts)`, and `s.replace(old, new)`. */
module Text {

  /** `s.split(c)`: the pieces between occurrences of `c`; there is always at least one piece. */
  function Split(s: string, c: char): (parts: seq<string>)
    ensures |parts| >= 1
    decreases |s|
  {
    if |s| == 0 then [""]
    else
      var rest := Split(s[1..], c);
      if s[0] == c then [""] + rest
      else [[s[0]] + rest[0]] + rest[1..]
  }

  /** The pieces contain no separator, and joining them with the separator gives the text back. */
  lemma {:induction false} JoinSplit(s: string, c: char)
    ensures forall i :: 0 <= i < |Split(s, c)| ==> c !in Split(s, c)[i]
    ensures Join(Split(s, c), c) == s
    decreases |s|
  {
    if |s| > 0 {
      var rest := Split(s[1..], c);
      JoinSplit(s[1..], c);
      if s[0] == c {
        assert Join([""] + rest, c) == [c] + Join(rest, c);
        assert Split(s, c) == [""] + rest;
        forall i | 0 <= i < |Split(s, c)| ensures c !in Split(s, c)[i] {
          if i > 0 { assert Split(s, c)[i] == rest[i - 1]; }
        }
      } else {
        var parts := [[s[0]] + rest[0]] + rest[1..];
        assert parts[1..] == rest[1..];
        JoinHead(s[0], rest, c);
        assert Split(s, c) == parts;
        forall i | 0 <= i < |parts| ensures c !in parts[i] {
          if i > 0 { assert parts[i] == rest[i]; }
          else { assert c !in rest[0]; assert parts[0] == [s[0]] + rest[0]; }
        }
      }
      assert [s[0]] + s[1..] == s;
    }
  }

  /** `c.join(parts)`. */
  function Join(parts: seq<string>, c: char): string
    requires |parts| >= 1
    decreases |parts|
  {
    if |parts| == 1 then parts[0] else parts[0] + [c] + Join(parts[1..], c)
  }

  lemma JoinHead(x: char, parts: seq<string>, c: char)
    requires |parts| >= 1
    ensures Join([[x] + parts[0]] + parts[1..], c) == [x] + Join(parts, c)
  {
    var q := [[x] + parts[0]] + parts[1..];
    assert q[1..] == parts[1..];
  }

  /** A text without the separator is a single piece. */
  lemma {:induction false} SplitNoSeparator(s: string, c: char)
    requires c !in s
    ensures Split(s, c) == [s]
    decreases |s|
  {
    if |s| > 0 {
      assert c !in s[1..] by { forall i | 0 <= i < |s[1..]| ensures s[1..][i] != c { assert s[1..][i] == s[i + 1]; } }
      SplitNoSeparator(s[1..], c);
      assert [s[0]] + s[1..] == s;
    }
  }

  /** A separator splits the text into the pieces before it followed by the pieces after it. */
  lemma {:induction false} SplitConcat(a: string, b: string, c: char)
    ensures Split(a + [c] + b, c) == Split(a, c) + Split(b, c)
    decreases |a|
  {
    var s := a + [c] + b;
    if |a| == 0 {
      assert s[1..] == b;
    } else {
      assert s[1..] == a[1..] + [c] + b;
      SplitConcat(a[1..], b, c);
    }
  }

  /** Text before the first separator joins the first piece of what follows. */
  lemma {:induction false} SplitPrefix(p: string, q: string, c: char)
    requires c !in p
    ensures Split(p + q, c) == [p + Split(q, c)[0]] + Split(q, c)[1..]
    decreases |p|
  {
    if |p| == 0 {
      var parts := Split(q, c);
      assert p + q == q && p + parts[0] == parts[0];
      assert [parts[0]] + parts[1..] == parts;
    } else {
      assert (p + q)[1..] == p[1..] + q;
      assert c !in p[1..] by { forall i | 0 <= i < |p[1..]| ensures p[1..][i] != c { assert p[1..][i] == p[i + 1]; } }
      SplitPrefix(p[1..], q, c);
      assert [p[0]] + (p[1..] + Split(q, c)[0]) == p + Split(q, c)[0];
    }
  }

  /** Joining pieces that do not contain the separator and splitting again gives the pieces back. */
  lemma {:induction false} SplitJoin(parts: seq<string>, c: char)
    requires |parts| >= 1
    requires forall i :: 0 <= i < |parts| ==> c !in parts[i]
    ensures Split(Join(parts, c), c) == parts
    decreases |parts|
  {
    if |parts| == 1 {
      SplitNoSeparator(parts[0], c);
    } else {
      assert c !in parts[0];
      SplitJoin(parts[1..], c);
      SplitConcat(parts[0], Join(parts[1..], c), c);
      SplitNoSeparator(parts[0], c);
      assert [parts[0]] + parts[1..] == parts;
    }
  }

  /** How many times `c` occurs in `s`. */
  function CountOf(s: string, c: char): nat
    decreases |s|
  {
    if |s| == 0 then 0 else (if s[0] == c then 1 else 0) + CountOf(s[1..], c)
  }

  /** `s.split(c)` has one piece more than there are separators. */
  lemma {:induction false} SplitCount(s: string, c: char)
    ensures |Split(s, c)| == CountOf(s, c) + 1
    decreases |s|
  {
    if |s| > 0 {
      SplitCount(s[1..], c);
    }
  }

  /** `s.replace(pat, rep)` for a non-empty `pat`: the occurrences of `pat` found scanning left to
      right, none overlapping the previous one, are each replaced by `rep`. */
  function Replace(s: string, pat: string, rep: string): string
    requires |pat| > 0
    decreases |s|
  {
    if |s| == 0 then []
    else if pat <= s then rep + Replace(s[|pat|..], pat, rep)
    else [s[0]] + Replace(s[1..], pat, rep)
  }

  /** Text without the first character of `pat` is left as it is. */
  lemma {:induction false} ReplaceAbsent(s: string, pat: string, rep: string)
    requires |pat| > 0 && pat[0] !in s
    ensures Replace(s, pat, rep) == s
    decreases |s|
  {
    if |s| > 0 {
      assert s[0] != pat[0];
      assert !(pat <= s);
      assert pat[0] !in s[1..];
      ReplaceAbsent(s[1..], pat, rep);
      assert [s[0]] + s[1..] == s;
    }
  }

  /** A prefix without the first character of `pat` passes through unchanged. */
  lemma {:induction false} ReplacePrefix(p: string, s: string, pat: string, rep: string)
    requires |pat| > 0 && pat[0] !in p
    ensures Replace(p + s, pat, rep) == p + Replace(s, pat, rep)
    decreases |p|
  {
    if |p| > 0 {
      assert (p + s)[0] == p[0] != pat[0];
      assert !(pat <= p + s);
      assert (p + s)[1..] == p[1..] + s;
      assert pat[0] !in p[1..];
      ReplacePrefix(p[1..], s, pat, rep);
      assert [p[0]] + p[1..] == p;
    } else {
      assert p + s == s;
    }
  }
}
