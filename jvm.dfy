/**
 * Method descriptors (app/.../utils/Jvm.java): `jvmNameToCanonical` turns a
 * method descriptor in the format of The Java Virtual Machine
 * Specification, sections 4.3.2 (field descriptors) and 4.3.3 (method
 * descriptors), into the readable names of its parameter and return types.
 *
 * The regular expression the method matches its input against is modelled
 * by the predicates `IsTerm`, `Terms` and `Descriptor`, over index ranges of
 * the input. The method itself does not follow that expression: it scans the
 * characters left to right, and an `L` takes everything up to the FIRST `;`
 * after it. `Decode` is that scan as a function.
 */
module Jvm {

  // ---------------------------------------------------------------------------
  // The pattern `\((L.+;|V|Z|B|C|S|I|J|F|D)*\)(L.+;|V|Z|B|C|S|I|J|F|D)`

  /** The base-type letters of section 4.3.2 of The Java Virtual Machine
      Specification, plus `V` for `void`. */
  predicate Base(ch: char) {
    ch == 'V' || ch == 'Z' || ch == 'B' || ch == 'C' || ch == 'S' ||
    ch == 'I' || ch == 'J' || ch == 'F' || ch == 'D'
  }

  /** The characters a regular-expression `.` does not match. */
  predicate LineTerminator(ch: char) {
    ch == '\n' || ch == '\r' || ch == '\U{0085}' || ch == '\U{2028}' || ch == '\U{2029}'
  }

  /** `s[a..m]` is one alternative of the group: a base letter, or `L`, at
      least one character other than a line terminator, and `;`. */
  predicate IsTerm(s: string, a: nat, m: nat) {
    a < m <= |s| &&
    ((m == a + 1 && Base(s[a])) ||
     (m >= a + 3 && s[a] == 'L' && s[m - 1] == ';' && forall q | a < q < m - 1 :: !LineTerminator(s[q])))
  }

  /** `s[a..e]` is a sequence of terms. */
  predicate Terms(s: string, a: nat, e: nat)
    requires a <= e <= |s|
    decreases e - a
  {
    a == e || exists m | a < m <= e :: IsTerm(s, a, m) && Terms(s, m, e)
  }

  /** The whole of `s` matches the pattern: `(`, terms, `)`, one term. */
  predicate Descriptor(s: string) {
    |s| >= 3 && s[0] == '(' &&
    exists k | 1 <= k < |s| :: s[k] == ')' && Terms(s, 1, k) && IsTerm(s, k + 1, |s|)
  }

  // ---------------------------------------------------------------------------
  // The scan

  /** Where the inner `while (parameters[j] != ';') j++` stops when started
      at `j`: the first `;` at or after `j`, or `|s|` if there is none. */
  function NextSemi(s: string, j: nat): (r: nat)
    requires j <= |s|
    ensures j <= r <= |s|
    ensures r < |s| ==> s[r] == ';'
    decreases |s| - j
  {
    if j == |s| || s[j] == ';' then j else NextSemi(s, j + 1)
  }

  /** ...and it stops no later than any `;` at or after `j`. */
  lemma {:induction false} NextSemiFirst(s: string, j: nat, q: nat)
    requires j <= q < |s| && s[q] == ';'
    ensures NextSemi(s, j) <= q
    decreases q - j
  {
    if j < q && s[j] != ';' {
      NextSemiFirst(s, j + 1, q);
    }
  }

  /** If `s[p]` is an `L`, the scan started after it stops before `e`. */
  predicate ClosedAt(s: string, p: nat, e: nat)
    requires p < e <= |s|
  {
    s[p] == 'L' ==> NextSemi(s, p + 1) < e
  }

  /** Every `L` in `s[i..e]` has a `;` after it, before `e`: the scan started
      at any of them stops inside `s[..e]`. */
  predicate Closed(s: string, i: nat, e: nat) {
    e <= |s| && forall p | i <= p < e :: ClosedAt(s, p, e)
  }

  /** The readable name of a base-type letter. */
  function BaseName(ch: char): string {
    match ch
    case 'V' => "void"
    case 'Z' => "boolean"
    case 'B' => "byte"
    case 'C' => "char"
    case 'S' => "short"
    case 'I' => "int"
    case 'J' => "long"
    case 'F' => "float"
    case 'D' => "double"
    case _ => ""
  }

  /** A class name in internal form with every `/` turned into `.`. */
  function Dotted(x: string): string {
    seq(|x|, c requires 0 <= c < |x| => if x[c] == '/' then '.' else x[c])
  }

  /** The names the loop appends from position `i` on: a base letter adds
      its name, an `L` adds the dotted class name up to the next `;` and
      resumes after it, and every other character adds nothing. Each name
      uses up at least one character. An `L` with no `;` after it ends the
      list; the method never reaches that case, because on a descriptor
      every `L` is closed (`DescriptorClosed`). */
  function Decode(s: string, i: nat): (r: seq<string>)
    requires i <= |s|
    ensures |r| <= |s| - i
    decreases |s| - i
  {
    if i == |s| then []
    else if Base(s[i]) then [BaseName(s[i])] + Decode(s, i + 1)
    else if s[i] == 'L' then
      var j := NextSemi(s, i + 1);
      if j == |s| then [] else [Dotted(s[i + 1..j])] + Decode(s, j + 1)
    else Decode(s, i + 1)
  }

  /** What `jvmNameToCanonical` returns: the decoded names when `s` matches
      the pattern, `s` itself otherwise. */
  function Canonical(s: string): seq<string> {
    if Descriptor(s) then Decode(s, 0) else [s]
  }

  // ---------------------------------------------------------------------------
  // The scan stays in bounds

  /** Each `L` in a sequence of terms is closed by a `;` of its own term. */
  lemma {:induction false} TermsClosed(s: string, a: nat, e: nat)
    requires a <= e <= |s| && Terms(s, a, e)
    ensures Closed(s, a, e)
    decreases e - a
  {
    if a < e {
      var m :| a < m <= e && IsTerm(s, a, m) && Terms(s, m, e);
      TermsClosed(s, m, e);
      forall p | a <= p < e ensures ClosedAt(s, p, e) {
        if p < m && s[p] == 'L' {
          assert s[m - 1] == ';' && p < m - 1;
          NextSemiFirst(s, p + 1, m - 1);
        } else if p >= m {
          assert ClosedAt(s, p, e);
        }
      }
    }
  }

  /** On input that matches the pattern, the inner `;` scan never runs past
      the end of the array. */
  lemma DescriptorClosed(s: string)
    requires Descriptor(s)
    ensures Closed(s, 0, |s|)
  {
    var k :| 1 <= k < |s| && s[k] == ')' && Terms(s, 1, k) && IsTerm(s, k + 1, |s|);
    TermsClosed(s, 1, k);
    forall p | 0 <= p < |s| ensures ClosedAt(s, p, |s|) {
      if 1 <= p < k {
        assert ClosedAt(s, p, k);
      } else if p > k && s[p] == 'L' {
        NextSemiFirst(s, p + 1, |s| - 1);
      }
    }
  }

  /** The scan over `s[i..k]`, whose `L`s are closed before `k`, reaches
      `k`: the names decoded from `k` on are among those decoded from `i`. */
  lemma {:induction false} DecodeReaches(s: string, i: nat, k: nat)
    requires i <= k < |s| && Closed(s, i, k)
    ensures |Decode(s, i)| >= |Decode(s, k)|
    decreases k - i
  {
    if i < k {
      if Base(s[i]) {
        DecodeReaches(s, i + 1, k);
      } else if s[i] == 'L' {
        assert ClosedAt(s, i, k);
        DecodeReaches(s, NextSemi(s, i + 1) + 1, k);
      } else {
        DecodeReaches(s, i + 1, k);
      }
    }
  }

  /** The return type, a term that ends the input, yields a name. */
  lemma LastTerm(s: string, a: nat)
    requires IsTerm(s, a, |s|)
    ensures |Decode(s, a)| >= 1
  {
    if s[a] == 'L' {
      NextSemiFirst(s, a + 1, |s| - 1);
    }
  }

  /** The result is never empty: a descriptor always yields at least the
      return type. */
  lemma NeverEmpty(s: string)
    ensures |Canonical(s)| >= 1
  {
    if Descriptor(s) {
      var k :| 1 <= k < |s| && s[k] == ')' && Terms(s, 1, k) && IsTerm(s, k + 1, |s|);
      TermsClosed(s, 1, k);
      DecodeReaches(s, 1, k);
      LastTerm(s, k + 1);
      assert Decode(s, k) == Decode(s, k + 1);
    }
  }

  // ---------------------------------------------------------------------------
  // `jvmNameToCanonical`

  /** `className[c] = '.'` for every `/`, in place. */
  method DotsInPlace(className: array<char>)
    modifies className
    ensures className[..] == Dotted(old(className[..]))
  {
    for c := 0 to className.Length
      invariant forall q | 0 <= q < c :: className[q] == if old(className[q]) == '/' then '.' else old(className[q])
      invariant forall q | c <= q < className.Length :: className[q] == old(className[q])
    {
      if className[c] == '/' {
        className[c] := '.';
      }
    }
  }

  /** Moving the next name from the pending part of the result onto the
      collected part. */
  lemma Extend(list: seq<string>, x: seq<string>, rest: seq<string>, whole: seq<string>)
    requires list + (x + rest) == whole
    ensures (list + x) + rest == whole
  {
    assert list + (x + rest) == (list + x) + rest;
  }

  /** One step of the scan at a base letter: its name, then the rest. */
  lemma DecodeBase(s: string, i: nat)
    requires i < |s| && Closed(s, i, |s|) && Base(s[i])
    ensures Closed(s, i + 1, |s|) && Decode(s, i) == [BaseName(s[i])] + Decode(s, i + 1)
  {
  }

  /** One step of the scan at an `L`: the dotted name up to the first `;`,
      then the rest after it. */
  lemma DecodeClass(s: string, i: nat, j: nat)
    requires i < |s| && Closed(s, i, |s|) && s[i] == 'L' && j == NextSemi(s, i + 1)
    ensures j < |s| && Closed(s, j + 1, |s|)
    ensures Decode(s, i) == [Dotted(s[i + 1..j])] + Decode(s, j + 1)
  {
    assert ClosedAt(s, i, |s|);
  }

  /** One step of the scan at any other character: nothing. */
  lemma DecodeSkip(s: string, i: nat)
    requires i < |s| && Closed(s, i, |s|) && !Base(s[i]) && s[i] != 'L'
    ensures Closed(s, i + 1, |s|) && Decode(s, i) == Decode(s, i + 1)
  {
  }

  /** The `L` case of the loop: scans from `i + 1` to the first `;`, copies
      the characters in between and turns every `/` into `.`. */
  method ClassNameAt(parameters: string, i: nat) returns (className: string, j: nat)
    requires i < |parameters| && ClosedAt(parameters, i, |parameters|) && parameters[i] == 'L'
    ensures j == NextSemi(parameters, i + 1) && j < |parameters|
    ensures className == Dotted(parameters[i + 1..j])
  {
    j := i + 1;
    while parameters[j] != ';'
      invariant i + 1 <= j <= NextSemi(parameters, i + 1) < |parameters|
      decreases NextSemi(parameters, i + 1) - j
    {
      j := j + 1;
    }
    NextSemiFirst(parameters, i + 1, j);
    var chars := new char[j - (i + 1)](c requires 0 <= c < j - (i + 1) => parameters[i + 1 + c]);
    assert chars[..] == parameters[i + 1..j];
    DotsInPlace(chars);
    className := chars[..];
  }

  /** The loop over the characters of a descriptor whose `L`s are all
      closed: it collects exactly the names `Decode` describes. */
  method Scan(parameters: string) returns (list: seq<string>)
    requires Closed(parameters, 0, |parameters|)
    ensures list == Decode(parameters, 0)
  {
    ghost var whole := Decode(parameters, 0);
    list := [];
    var i := 0;
    while i < |parameters|
      invariant i <= |parameters| && Closed(parameters, i, |parameters|)
      invariant list + Decode(parameters, i) == whole
    {
      var ch := parameters[i];
      if Base(ch) {
        DecodeBase(parameters, i);
        Extend(list, [BaseName(ch)], Decode(parameters, i + 1), whole);
        list := list + [BaseName(ch)];
      } else if ch == 'L' {
        assert ClosedAt(parameters, i, |parameters|);
        var className, j := ClassNameAt(parameters, i);
        DecodeClass(parameters, i, j);
        Extend(list, [className], Decode(parameters, j + 1), whole);
        list := list + [className];
        i := j;
      } else {
        DecodeSkip(parameters, i);
      }
      i := i + 1;
    }
  }

  method JvmNameToCanonical(name: string) returns (list: seq<string>)
    ensures list == Canonical(name) && |list| >= 1
  {
    NeverEmpty(name);
    if Descriptor(name) {
      DescriptorClosed(name);
      list := Scan(name);
    } else {
      list := [name];
    }
  }

  // ---------------------------------------------------------------------------
  // Descriptors built from field types

  /** A field type of section 4.3.2 of The Java Virtual Machine
      Specification, as the pattern admits it: a base letter or a class name
      without `;` and line terminators. */
  datatype FieldType = Primitive(letter: char) | Object(name: string)

  /** No `;` and no line terminator in `n`. */
  predicate Plain(n: string) {
    ';' !in n && '\n' !in n && '\r' !in n && '\U{0085}' !in n && '\U{2028}' !in n && '\U{2029}' !in n
  }

  predicate ValidField(t: FieldType) {
    match t
    case Primitive(ch) => Base(ch)
    case Object(n) =>
      |n| >= 1 && Plain(n)
  }

  predicate ValidFields(ts: seq<FieldType>) {
    ts == [] || (ValidField(ts[0]) && ValidFields(ts[1..]))
  }

  /** The field descriptor of `t`. */
  function Field(t: FieldType): string {
    match t
    case Primitive(ch) => [ch]
    case Object(n) => "L" + n + ";"
  }

  function Fields(ts: seq<FieldType>): string {
    if ts == [] then "" else Field(ts[0]) + Fields(ts[1..])
  }

  /** The method descriptor with parameter types `ps` and return type `r`. */
  function Encode(ps: seq<FieldType>, r: FieldType): string {
    "(" + Fields(ps) + ")" + Field(r)
  }

  /** The readable name of a field type. */
  function Readable(t: FieldType): string {
    match t
    case Primitive(ch) => BaseName(ch)
    case Object(n) => Dotted(n)
  }

  function ReadableAll(ts: seq<FieldType>): (r: seq<string>)
    ensures |r| == |ts|
  {
    if ts == [] then [] else [Readable(ts[0])] + ReadableAll(ts[1..])
  }

  /** The scan stops at the first `;` at or after `j`. */
  lemma {:induction false} NextSemiAt(s: string, j: nat, r: nat)
    requires j <= r < |s| && s[r] == ';' && forall q | j <= q < r :: s[q] != ';'
    ensures NextSemi(s, j) == r
    decreases r - j
  {
    if j < r {
      NextSemiAt(s, j + 1, r);
    }
  }

  lemma SliceSplit(s: string, a: nat, m: nat, e: nat, x: string, y: string)
    requires a <= e <= |s| && s[a..e] == x + y && m == a + |x|
    ensures s[a..m] == x && s[m..e] == y
  {
    assert s[a..m] == s[a..e][..|x|];
    assert s[m..e] == s[a..e][|x|..];
  }

  /** The characters of `x`, found at `s[a..e]`, one by one. */
  lemma SliceAt(s: string, a: nat, e: nat, x: string)
    requires a <= e <= |s| && s[a..e] == x
    ensures forall q | 0 <= q < |x| :: s[a + q] == x[q]
  {
    forall q | 0 <= q < |x| ensures s[a + q] == x[q] {
      assert s[a..e][q] == s[a + q];
    }
  }

  /** A valid field descriptor found at `s[a..m]` is one term of the
      pattern. */
  lemma FieldTerm(s: string, a: nat, m: nat, t: FieldType)
    requires ValidField(t) && m <= |s| && m == a + |Field(t)| && s[a..m] == Field(t)
    ensures IsTerm(s, a, m)
  {
    SliceAt(s, a, m, Field(t));
  }

  /** The scan stops at a `;` with none before it. */
  lemma {:induction false} NextSemiSlice(s: string, j: nat, e: nat)
    requires j <= e < |s| && s[e] == ';' && ';' !in s[j..e]
    ensures NextSemi(s, j) == e
    decreases e - j
  {
    if j < e {
      assert s[j..e] == [s[j]] + s[j + 1..e];
      NextSemiSlice(s, j + 1, e);
    }
  }

  /** ...and the scan reads it back as its readable name. */
  lemma FieldDecode(s: string, a: nat, m: nat, t: FieldType)
    requires ValidField(t) && m <= |s| && m == a + |Field(t)| && s[a..m] == Field(t)
    ensures Decode(s, a) == [Readable(t)] + Decode(s, m)
  {
    var f := Field(t);
    assert s[a] == f[0];
    if t.Object? {
      var n, e := t.name, m - 1;
      assert f == "L" + (n + ";");
      SliceSplit(s, a, a + 1, m, "L", n + ";");
      SliceSplit(s, a + 1, e, m, n, ";");
      assert s[e] == s[e..m][0];
      NextSemiSlice(s, a + 1, e);
    }
  }

  /** A run of valid field descriptors at `s[a..e]` is a sequence of
      terms... */
  lemma {:induction false} FieldsTerms(s: string, a: nat, e: nat, ts: seq<FieldType>)
    requires ValidFields(ts) && e <= |s| && e == a + |Fields(ts)| && s[a..e] == Fields(ts)
    ensures Terms(s, a, e)
    decreases |ts|
  {
    if ts != [] {
      var t, rest := ts[0], ts[1..];
      assert Fields(ts) == Field(t) + Fields(rest);
      var m := a + |Field(t)|;
      SliceSplit(s, a, m, e, Field(t), Fields(rest));
      FieldTerm(s, a, m, t);
      FieldsTerms(s, m, e, rest);
      assert IsTerm(s, a, m) && Terms(s, m, e);
    }
  }

  /** ...and the scan reads back their names in order. */
  lemma {:induction false} FieldsDecode(s: string, a: nat, e: nat, ts: seq<FieldType>)
    requires ValidFields(ts) && e <= |s| && e == a + |Fields(ts)| && s[a..e] == Fields(ts)
    ensures Decode(s, a) == ReadableAll(ts) + Decode(s, e)
    decreases |ts|
  {
    if ts != [] {
      var t, rest := ts[0], ts[1..];
      assert Fields(ts) == Field(t) + Fields(rest);
      var m := a + |Field(t)|;
      SliceSplit(s, a, m, e, Field(t), Fields(rest));
      FieldDecode(s, a, m, t);
      FieldsDecode(s, m, e, rest);
      calc {
        Decode(s, a);
        [Readable(t)] + Decode(s, m);
        [Readable(t)] + (ReadableAll(rest) + Decode(s, e));
        ([Readable(t)] + ReadableAll(rest)) + Decode(s, e);
      }
    }
  }

  /** Where the pieces of an encoded descriptor lie. */
  lemma EncodeParts(ps: seq<FieldType>, r: FieldType, s: string, k: nat)
    requires s == Encode(ps, r) && k == 1 + |Fields(ps)|
    ensures k < |s| && s[0] == '(' && s[k] == ')'
    ensures s[1..k] == Fields(ps) && s[k + 1..|s|] == Field(r)
  {
    assert s == "(" + Fields(ps) + ")" + Field(r);
  }

  /** The encoding of valid field types matches the pattern. */
  lemma EncodeMatches(ps: seq<FieldType>, r: FieldType)
    requires ValidFields(ps) && ValidField(r)
    ensures Descriptor(Encode(ps, r))
  {
    var s := Encode(ps, r);
    var k := 1 + |Fields(ps)|;
    EncodeParts(ps, r, s, k);
    FieldsTerms(s, 1, k, ps);
    FieldTerm(s, k + 1, |s|, r);
    assert s[k] == ')' && Terms(s, 1, k) && IsTerm(s, k + 1, |s|);
  }

  /** The parentheses add nothing. */
  lemma Skips(s: string, i: nat)
    requires i < |s| && (s[i] == '(' || s[i] == ')')
    ensures Decode(s, i) == Decode(s, i + 1)
  {
  }

  /** The scan over `(`, then valid field descriptors up to `)` at `k`, then
      one more valid field descriptor, reads back their readable names. */
  lemma PartsDecode(s: string, k: nat, ps: seq<FieldType>, r: FieldType)
    requires ValidFields(ps) && ValidField(r)
    requires k < |s| && s[0] == '(' && s[k] == ')' && k == 1 + |Fields(ps)|
    requires s[1..k] == Fields(ps) && s[k + 1..|s|] == Field(r)
    ensures Decode(s, 0) == ReadableAll(ps) + [Readable(r)]
  {
    var n := |s|;
    Skips(s, 0);
    FieldsDecode(s, 1, k, ps);
    Skips(s, k);
    FieldDecode(s, k + 1, n, r);
    assert Decode(s, n) == [];
  }

  /** The scan over the encoding of valid field types reads back their
      readable names. */
  lemma EncodeDecodes(ps: seq<FieldType>, r: FieldType)
    requires ValidFields(ps) && ValidField(r)
    ensures Decode(Encode(ps, r), 0) == ReadableAll(ps) + [Readable(r)]
  {
    var s := Encode(ps, r);
    var k := 1 + |Fields(ps)|;
    EncodeParts(ps, r, s, k);
    PartsDecode(s, k, ps, r);
  }

  /** Encoding then converting gives the readable parameter types followed
      by the readable return type; the encoding matches the pattern. */
  lemma RoundTrip(ps: seq<FieldType>, r: FieldType)
    requires ValidFields(ps) && ValidField(r)
    ensures Descriptor(Encode(ps, r))
    ensures Canonical(Encode(ps, r)) == ReadableAll(ps) + [Readable(r)]
  {
    EncodeMatches(ps, r);
    EncodeDecodes(ps, r);
  }

  /** The functions over field lists, one field at a time. */
  lemma FieldsCons(t: FieldType, ts: seq<FieldType>)
    ensures Fields([t] + ts) == Field(t) + Fields(ts)
    ensures ReadableAll([t] + ts) == [Readable(t)] + ReadableAll(ts)
    ensures ValidFields([t] + ts) == (ValidField(t) && ValidFields(ts))
  {
    assert ([t] + ts)[1..] == ts;
  }

  /** `java/lang/Object` is a class name the pattern admits. */
  lemma ObjectValid()
    ensures ValidField(Object("java/lang/Object"))
  {
    var a, b := "java/", "lang/Object";
    assert Plain(a) && Plain(b);
    assert "java/lang/Object" == a + b;
  }

  /** The descriptor text of the documented example, piece by piece. */
  lemma ExampleClass(o: string)
    requires o == "L" + "java/lang/Object" + ";"
    ensures o == "Ljava/lang/Object;"
  {
  }

  lemma ExampleParameters(o: string, f: string)
    requires o == "Ljava/lang/Object;" && f == "Z" + ("B" + (o + ""))
    ensures f == "ZBLjava/lang/Object;"
  {
  }

  lemma ExampleText(f: string)
    requires f == "ZBLjava/lang/Object;"
    ensures "(" + f + ")" + "V" == "(ZBLjava/lang/Object;)V"
  {
  }

  /** The parameter and return types of the documented example. */
  lemma ExampleTypes() returns (ps: seq<FieldType>)
    ensures ValidFields(ps)
    ensures Encode(ps, Primitive('V')) == "(ZBLjava/lang/Object;)V"
    ensures ReadableAll(ps) == ["boolean", "byte", Dotted("java/lang/Object")]
  {
    var z, b, o := Primitive('Z'), Primitive('B'), Object("java/lang/Object");
    ObjectValid();
    FieldsCons(o, []);
    FieldsCons(b, [o]);
    FieldsCons(z, [b, o]);
    assert [z] + [b, o] == [z, b, o] && [b] + [o] == [b, o] && [o] + [] == [o];
    ps := [z, b, o];
    ExampleClass(Field(o));
    ExampleParameters(Field(o), Fields(ps));
    ExampleText(Fields(ps));
  }

  lemma DottedObject()
    ensures Dotted("java/lang/Object") == "java.lang.Object"
  {
  }

  /** The example of the method's documentation. */
  lemma Example()
    ensures Canonical("(ZBLjava/lang/Object;)V") == ["boolean", "byte", "java.lang.Object", "void"]
  {
    var ps := ExampleTypes();
    RoundTrip(ps, Primitive('V'));
    DottedObject();
  }

  /** Array types are outside the pattern, so such a descriptor comes back
      unchanged. */
  lemma ArrayFallsBack()
    ensures Canonical("([I)V") == ["([I)V"]
  {
  }
}
