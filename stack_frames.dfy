/**
 * The display form of a stack frame (app/.../utils/StackFrames.java):
 * `format` writes the method name, then the parameter names joined by `,`
 * (`String.join`) inside parentheses.
 *
 * `Split` cuts a string at its commas; it is the inverse of `Join` on
 * parameter names without commas, and `Parse` is the inverse of `Format` on
 * frames whose method name has no `(`.
 */
module StackFrames {
  import opened Wrappers
  import opened Jfr

  /** The summed lengths of the strings in `ps`. */
  function TotalLength(ps: seq<string>): nat {
    if ps == [] then 0 else TotalLength(ps[..|ps| - 1]) + |ps[|ps| - 1]|
  }

  /** How many separators sit between `n` items: one fewer than the items,
      and none for no items. */
  function Separators(n: nat): nat {
    if n == 0 then 0 else n - 1
  }

  /** `String.join(",", ps)`: the strings with one `,` between each two
      consecutive ones. */
  function Join(ps: seq<string>): (r: string)
    ensures |r| == TotalLength(ps) + Separators(|ps|)
    decreases |ps|
  {
    if ps == [] then ""
    else if |ps| == 1 then ps[0]
    else Join(ps[..|ps| - 1]) + "," + ps[|ps| - 1]
  }

  /** `format`: `methodName(p1,p2,...)`. */
  function Format(frame: StackFrame): (r: string)
    ensures |r| == |frame.methodName| + 2 + TotalLength(frame.parameters) + Separators(|frame.parameters|)
  {
    frame.methodName + "(" + Join(frame.parameters) + ")"
  }

  /** A frame without parameters is written with empty parentheses. */
  lemma FormatNoParameters(frame: StackFrame)
    requires frame.parameters == []
    ensures Format(frame) == frame.methodName + "()"
  {
  }

  // ---------------------------------------------------------------------------
  // Separators

  /** The number of times `ch` occurs in `s`. */
  function Occurrences(s: string, ch: char): nat {
    if s == [] then 0 else Occurrences(s[..|s| - 1], ch) + (if s[|s| - 1] == ch then 1 else 0)
  }

  lemma {:induction false} OccurrencesAppend(a: string, b: string, ch: char)
    ensures Occurrences(a + b, ch) == Occurrences(a, ch) + Occurrences(b, ch)
    decreases |b|
  {
    if b == [] {
      assert a + b == a;
    } else {
      var b', c := b[..|b| - 1], b[|b| - 1];
      assert a + b == (a + b') + [c];
      assert (a + b)[..|a + b| - 1] == a + b';
      OccurrencesAppend(a, b', ch);
    }
  }

  lemma {:induction false} OccurrencesNone(s: string, ch: char)
    requires ch !in s
    ensures Occurrences(s, ch) == 0
    decreases |s|
  {
    if s != [] {
      assert ch !in s[..|s| - 1];
      OccurrencesNone(s[..|s| - 1], ch);
    }
  }

  /** Between parameter names without commas, `join` writes exactly one
      comma fewer than there are names. */
  lemma {:induction false} JoinSeparators(ps: seq<string>)
    requires forall p | p in ps :: ',' !in p
    ensures Occurrences(Join(ps), ',') == Separators(|ps|)
    decreases |ps|
  {
    if |ps| == 1 {
      OccurrencesNone(ps[0], ',');
    } else if |ps| > 1 {
      var init, last := ps[..|ps| - 1], ps[|ps| - 1];
      assert forall p | p in init :: p in ps;
      JoinSeparators(init);
      OccurrencesAppend(Join(init) + ",", last, ',');
      OccurrencesAppend(Join(init), ",", ',');
      OccurrencesNone(last, ',');
    }
  }

  // ---------------------------------------------------------------------------
  // Splitting at commas

  /** The pieces of `s` between its commas; a string without commas is one
      piece. */
  function Split(s: string): (r: seq<string>)
    ensures |r| >= 1
  {
    if s == [] then [""]
    else
      var r := Split(s[..|s| - 1]);
      var c := s[|s| - 1];
      if c == ',' then r + [""] else r[..|r| - 1] + [r[|r| - 1] + [c]]
  }

  /** A string without commas is a single piece. */
  lemma {:induction false} SplitPlain(p: string)
    requires ',' !in p
    ensures Split(p) == [p]
    decreases |p|
  {
    if p != [] {
      var init := p[..|p| - 1];
      assert ',' !in init;
      SplitPlain(init);
      assert init + [p[|p| - 1]] == p;
    }
  }

  /** A comma followed by a piece without commas adds that piece. */
  lemma {:induction false} SplitAppend(s: string, p: string)
    requires ',' !in p
    ensures Split(s + "," + p) == Split(s) + [p]
    decreases |p|
  {
    if p == [] {
      assert s + "," + p == s + ",";
      assert (s + ",")[..|s|] == s;
    } else {
      var init, c := p[..|p| - 1], p[|p| - 1];
      assert ',' !in init;
      SplitAppend(s, init);
      var t := s + "," + p;
      assert t[..|t| - 1] == s + "," + init;
      assert init + [c] == p;
    }
  }

  /** Splitting joined parameter names without commas gives them back. */
  lemma {:induction false} SplitJoin(ps: seq<string>)
    requires |ps| >= 1 && forall p | p in ps :: ',' !in p
    ensures Split(Join(ps)) == ps
    decreases |ps|
  {
    if |ps| == 1 {
      SplitPlain(ps[0]);
    } else {
      var init, last := ps[..|ps| - 1], ps[|ps| - 1];
      assert forall p | p in init :: p in ps;
      SplitJoin(init);
      SplitAppend(Join(init), last);
      assert init + [last] == ps;
    }
  }

  // ---------------------------------------------------------------------------
  // Reading a formatted frame back

  /** The position of the first `ch` in `s`, or `|s|` if there is none. */
  function IndexOf(s: string, ch: char): (r: nat)
    ensures r <= |s| && (r < |s| ==> s[r] == ch)
  {
    if s == [] || s[0] == ch then 0 else 1 + IndexOf(s[1..], ch)
  }

  lemma {:induction false} IndexOfAfter(a: string, ch: char, b: string)
    requires ch !in a
    ensures IndexOf(a + [ch] + b, ch) == |a|
    decreases |a|
  {
    if a != [] {
      assert (a + [ch] + b)[1..] == a[1..] + [ch] + b;
      assert ch !in a[1..];
      IndexOfAfter(a[1..], ch, b);
    }
  }

  /** The method name and the parameter names of a formatted frame: the text
      before the first `(`, and the pieces between it and the final `)`. */
  function Parse(s: string): Option<(string, seq<string>)> {
    var i := IndexOf(s, '(');
    if i + 2 <= |s| && s[|s| - 1] == ')' then
      var inside := s[i + 1..|s| - 1];
      Some((s[..i], if inside == "" then [] else Split(inside)))
    else None
  }

  /** A frame whose method name has no `(` and whose parameter names are
      non-empty and have no `,` is read back from its format: no two such
      frames are formatted alike. */
  lemma FormatParse(frame: StackFrame)
    requires '(' !in frame.methodName
    requires forall p | p in frame.parameters :: p != "" && ',' !in p
    ensures Parse(Format(frame)) == Some((frame.methodName, frame.parameters))
  {
    var n, ps := frame.methodName, frame.parameters;
    var j := Join(ps);
    var s := Format(frame);
    assert s == n + ['('] + (j + ")");
    IndexOfAfter(n, '(', j + ")");
    assert s[..|n|] == n;
    assert s[|n| + 1..|s| - 1] == j;
    if ps != [] {
      NonEmptyJoin(ps);
      SplitJoin(ps);
    }
  }

  /** Non-empty names join to a non-empty string. */
  lemma NonEmptyJoin(ps: seq<string>)
    requires |ps| >= 1 && forall p | p in ps :: p != ""
    ensures Join(ps) != ""
  {
    if |ps| == 1 {
      assert ps[0] in ps;
    }
  }
}
