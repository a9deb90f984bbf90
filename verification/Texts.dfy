/** Taking concatenated texts apart again. */
module Texts {

  lemma Head(a: string, x: string)
    requires a != ""
    ensures a + x != "" && (a + x)[0] == a[0]
  {
  }

  lemma Peel(c: char, x: string, d: char, y: string)
    requires [c] + x == [d] + y
    ensures c == d && x == y
  {
    assert ([c] + x)[0] == c && ([d] + y)[0] == d;
    assert ([c] + x)[1..] == x && ([d] + y)[1..] == y;
  }

  lemma Split(a: string, x: string, b: string, y: string)
    requires a + x == b + y && |a| == |b|
    ensures a == b && x == y
  {
    assert (a + x)[..|a|] == a && (b + y)[..|b|] == b;
    assert (a + x)[|a|..] == x && (b + y)[|b|..] == y;
  }

  lemma Assoc(a: string, b: string, c: string)
    ensures (a + b) + c == a + (b + c)
  {
  }

  // ----- codes: each character becomes a non-empty word

  function Encode(code: char -> string, s: string): string {
    if s == "" then "" else code(s[0]) + Encode(code, s[1..])
  }

  /** No word of the code is empty, starts with a quote, or is a prefix of another. */
  ghost predicate PrefixCode(code: char -> string) {
    && (forall c :: code(c) != "" && code(c)[0] != '\"')
    && (forall c, d, x, y :: code(c) + x == code(d) + y ==> c == d)
  }

  /** An encoded text ended by a quote can be read in one way only. */
  lemma {:induction false} EncodeDecodes(code: char -> string, s: string, u: string, r: string, t: string)
    requires PrefixCode(code)
    requires Encode(code, s) + ("\"" + r) == Encode(code, u) + ("\"" + t)
    ensures s == u && r == t
  {
    if s == "" && u == "" {
      Split("", "\"" + r, "", "\"" + t);
      Peel('\"', r, '\"', t);
    } else if s == "" {
      EncodeHead(code, u, "\"" + t);
    } else if u == "" {
      EncodeHead(code, s, "\"" + r);
    } else {
      var x, y := Encode(code, s[1..]) + ("\"" + r), Encode(code, u[1..]) + ("\"" + t);
      Assoc(code(s[0]), Encode(code, s[1..]), "\"" + r);
      Assoc(code(u[0]), Encode(code, u[1..]), "\"" + t);
      assert code(s[0]) + x == code(u[0]) + y;
      Split(code(s[0]), x, code(u[0]), y);
      EncodeDecodes(code, s[1..], u[1..], r, t);
      assert s == [s[0]] + s[1..] && u == [u[0]] + u[1..];
    }
  }

  lemma {:induction false} EncodeHead(code: char -> string, s: string, r: string)
    requires PrefixCode(code) && s != ""
    ensures Encode(code, s) + r != "" && (Encode(code, s) + r)[0] != '\"'
  {
    Head(code(s[0]), Encode(code, s[1..]));
    Head(Encode(code, s), r);
  }

  lemma {:induction false} EncodeOfParts(code: char -> string, a: string, b: string)
    ensures Encode(code, a + b) == Encode(code, a) + Encode(code, b)
  {
    if a == "" {
      assert a + b == b;
    } else {
      EncodeOfParts(code, a[1..], b);
      assert (a + b)[1..] == a[1..] + b;
      Assoc(code(a[0]), Encode(code, a[1..]), Encode(code, b));
    }
  }

  // ----- lists: `parts.join(',')`

  function Join(parts: seq<string>): string {
    if parts == [] then ""
    else if |parts| == 1 then parts[0]
    else parts[0] + ("," + Join(parts[1..]))
  }

  // What may follow a printed value inside a larger text.
  predicate Delimited(s: string) {
    s == "" || s[0] == ',' || s[0] == ']' || s[0] == '}'
  }

  /** Neither text is a proper prefix of the other at the end of a value. */
  ghost predicate PrefixFree(a: string, b: string) {
    forall r, t :: Delimited(r) && Delimited(t) && a + r == b + t ==> a == b
  }

  predicate Closes(c: char) {
    c == ']' || c == '}'
  }

  // A part is a non-empty text that does not start like the end of the list.
  predicate IsPart(a: string) {
    a != "" && !Closes(a[0])
  }

  lemma {:induction false} SameFirst(xs: seq<string>, ys: seq<string>, r: string, t: string)
    requires xs != [] && ys != [] && Join(xs) + r == Join(ys) + t
    requires PrefixFree(xs[0], ys[0]) && Delimited(Tail(xs, r)) && Delimited(Tail(ys, t))
    ensures xs[0] == ys[0] && Tail(xs, r) == Tail(ys, t)
  {
    TailJoins(xs, r);
    TailJoins(ys, t);
    Split(xs[0], Tail(xs, r), ys[0], Tail(ys, t));
  }

  // The first character says whether more parts follow.
  lemma TailHead(xs: seq<string>, c: char, r: string)
    requires xs != [] && Closes(c)
    ensures Tail(xs, [c] + r) != ""
    ensures Tail(xs, [c] + r)[0] == if |xs| > 1 then ',' else c
    ensures |xs| > 1 ==> Tail(xs, [c] + r)[1..] == Join(xs[1..]) + ([c] + r)
    ensures |xs| == 1 ==> Tail(xs, [c] + r)[1..] == r
  {
  }

  lemma TailsTell(xs: seq<string>, ys: seq<string>, c: char, r: string, t: string)
    requires xs != [] && ys != [] && Closes(c) && Tail(xs, [c] + r) == Tail(ys, [c] + t)
    ensures |xs| > 1 <==> |ys| > 1
    ensures |xs| > 1 ==> Join(xs[1..]) + ([c] + r) == Join(ys[1..]) + ([c] + t)
    ensures |xs| == 1 ==> r == t
  {
    TailHead(xs, c, r);
    TailHead(ys, c, t);
  }

  /** A joined list ended by its closing bracket can be read in one way only. */
  lemma {:induction false} JoinDecodes(xs: seq<string>, ys: seq<string>, c: char, r: string, t: string)
    requires Closes(c) && Join(xs) + ([c] + r) == Join(ys) + ([c] + t)
    requires forall i :: 0 <= i < |xs| ==> IsPart(xs[i])
    requires forall j :: 0 <= j < |ys| ==> IsPart(ys[j])
    requires forall i, j :: 0 <= i < |xs| && 0 <= j < |ys| ==> PrefixFree(xs[i], ys[j])
    ensures xs == ys && r == t
  {
    if xs == [] && ys == [] {
      Split("", [c] + r, "", [c] + t);
      Peel(c, r, c, t);
    } else if xs == [] {
      JoinHead(ys, [c] + t);
    } else if ys == [] {
      JoinHead(xs, [c] + r);
    } else {
      SameFirst(xs, ys, [c] + r, [c] + t);
      TailsTell(xs, ys, c, r, t);
      if |xs| > 1 {
        JoinDecodes(xs[1..], ys[1..], c, r, t);
      }
      assert xs == [xs[0]] + xs[1..] && ys == [ys[0]] + ys[1..];
    }
  }

  function Tail(xs: seq<string>, end: string): string
    requires xs != []
  {
    if |xs| == 1 then end else "," + (Join(xs[1..]) + end)
  }

  lemma {:induction false} TailJoins(xs: seq<string>, end: string)
    requires xs != []
    ensures Join(xs) + end == xs[0] + Tail(xs, end)
  {
    if |xs| > 1 {
      Assoc(xs[0], "," + Join(xs[1..]), end);
      Assoc(",", Join(xs[1..]), end);
    }
  }

  lemma {:induction false} JoinHead(xs: seq<string>, r: string)
    requires xs != [] && IsPart(xs[0])
    ensures Join(xs) + r != "" && !Closes((Join(xs) + r)[0])
  {
    TailJoins(xs, r);
    Head(xs[0], Tail(xs, r));
  }

  lemma {:induction false} JoinCons(a: string, rest: seq<string>)
    requires rest != []
    ensures Join([a] + rest) == a + "," + Join(rest)
  {
    assert ([a] + rest)[1..] == rest;
    Assoc(a, ",", Join(rest));
  }

  lemma JoinOfTwo(a: string, b: string)
    ensures Join([a, b]) == a + "," + b
  {
    assert [a, b] == [a] + [b];
    JoinCons(a, [b]);
  }

  lemma JoinOfThree(a: string, b: string, c: string)
    ensures Join([a, b, c]) == a + "," + b + "," + c
  {
    assert [a, b, c] == [a] + [b, c];
    JoinCons(a, [b, c]);
    JoinOfTwo(b, c);
    Assoc(a + ",", b + ",", c);
    Assoc(a + ",", b, ",");
  }

  lemma JoinOfFive(a: string, b: string, c: string, d: string, e: string)
    ensures Join([a, b, c, d, e]) == a + "," + b + "," + c + "," + d + "," + e
  {
    assert [a, b, c, d, e] == [a] + [b, c, d, e] && [b, c, d, e] == [b] + [c, d, e];
    JoinCons(a, [b, c, d, e]);
    JoinCons(b, [c, d, e]);
    JoinOfThree(c, d, e);
    assert Join([a, b, c, d, e]) == a + "," + (b + "," + (c + "," + d + "," + e));
  }

  // ----- `String.prototype.trim`

  predicate IsSpace(c: char) {
    var k := c as int;
    9 <= k <= 13 || k == 0x20 || k == 0xA0 || k == 0x1680 || 0x2000 <= k <= 0x200A
    || k == 0x2028 || k == 0x2029 || k == 0x202F || k == 0x205F || k == 0x3000 || k == 0xFEFF
  }

  /** The white space and line terminators of ECMAScript. */
  lemma SpaceSpelledOut(c: char)
    ensures IsSpace(c) <==>
      || c as int in {0x9, 0xA, 0xB, 0xC, 0xD, 0x20, 0xA0, 0x1680, 0x2028, 0x2029, 0x202F, 0x205F, 0x3000, 0xFEFF}
      || 0x2000 <= c as int <= 0x200A
  {
  }

  function SkipSpaces(s: string, i: nat): (j: nat)
    requires i <= |s|
    ensures i <= j <= |s|
    ensures j < |s| ==> !IsSpace(s[j])
    decreases |s| - i
  {
    if i < |s| && IsSpace(s[i]) then SkipSpaces(s, i + 1) else i
  }

  function DropSpaces(s: string, i: nat, j: nat): (k: nat)
    requires i <= j <= |s|
    ensures i <= k <= j
    ensures i < k ==> !IsSpace(s[k - 1])
    decreases j
  {
    if i < j && IsSpace(s[j - 1]) then DropSpaces(s, i, j - 1) else j
  }

  /** Neither empty nor surrounded by spaces. */
  predicate IsTrimmed(s: string) {
    s != "" && !IsSpace(s[0]) && !IsSpace(s[|s| - 1])
  }

  function Trim(s: string): (r: string)
    ensures r == "" || IsTrimmed(r)
  {
    var i := SkipSpaces(s, 0);
    var k := DropSpaces(s, i, |s|);
    if i < k then s[i..k] else ""
  }

  lemma TrimOfTrimmed(s: string)
    requires IsTrimmed(s)
    ensures Trim(s) == s
  {
    assert s[0..|s|] == s;
  }

  predicate Blank(s: string) {
    forall i :: 0 <= i < |s| ==> IsSpace(s[i])
  }

  lemma {:induction false} SkipSpacesTo(s: string, i: nat, j: nat)
    requires i <= j <= |s| && (j < |s| ==> !IsSpace(s[j]))
    requires forall k :: i <= k < j ==> IsSpace(s[k])
    ensures SkipSpaces(s, i) == j
    decreases j - i
  {
    if i < j {
      SkipSpacesTo(s, i + 1, j);
    }
  }

  lemma {:induction false} DropSpacesTo(s: string, i: nat, k: nat, j: nat)
    requires i < k <= j <= |s| && !IsSpace(s[k - 1])
    requires forall l :: k <= l < j ==> IsSpace(s[l])
    ensures DropSpaces(s, i, j) == k
    decreases j
  {
    if k < j {
      DropSpacesTo(s, i, k, j - 1);
    }
  }

  /** Surrounding spaces go. */
  lemma TrimOf(s: string, x: string, core: string, y: string)
    requires s == x + core + y && Blank(x) && Blank(y) && IsTrimmed(core)
    ensures Trim(s) == core
  {
    var i, k := |x|, |x| + |core|;
    assert forall l :: 0 <= l < i ==> s[l] == x[l];
    assert forall l :: 0 <= l < |core| ==> s[i + l] == core[l];
    assert forall l :: k <= l < |s| ==> s[l] == y[l - k];
    SkipSpacesTo(s, 0, i);
    assert s[k - 1] == core[|core| - 1];
    DropSpacesTo(s, i, k, |s|);
    assert s[i..k] == core;
  }

  lemma {:induction false} SkippedIsBlank(s: string, i: nat)
    requires i <= |s|
    ensures forall k :: i <= k < SkipSpaces(s, i) ==> IsSpace(s[k])
    decreases |s| - i
  {
    if i < |s| && IsSpace(s[i]) {
      SkippedIsBlank(s, i + 1);
    }
  }

  lemma {:induction false} DroppedIsBlank(s: string, i: nat, j: nat)
    requires i <= j <= |s|
    ensures forall k :: DropSpaces(s, i, j) <= k < j ==> IsSpace(s[k])
    decreases j
  {
    if i < j && IsSpace(s[j - 1]) {
      DroppedIsBlank(s, i, j - 1);
    }
  }

  /** What `Trim` takes away. */
  lemma TrimParts(s: string) returns (x: string, y: string)
    ensures Blank(x) && Blank(y) && s == x + Trim(s) + y
    ensures Trim(s) == "" ==> Blank(s)
  {
    var i := SkipSpaces(s, 0);
    var k := DropSpaces(s, i, |s|);
    SkippedIsBlank(s, 0);
    DroppedIsBlank(s, i, |s|);
    x, y := s[..i], s[k..];
    assert s == s[..i] + s[i..k] + s[k..];
  }
}
