/**
 The amount parser of the handshake endpoint: a decimal string in major units becomes a whole number of
 cents without floating point.
 */
module Amounts {
  import opened Wrappers
  import opened Texts
  import D = Decimal

  function DropComma(c: char): string {
    if c == ',' then "" else [c]
  }

  function RemoveCommas(s: string): string {
    Encode(DropComma, s)
  }

  // `split('.')`: the text before the first dot, and what follows it.
  function BeforeDot(s: string): (r: string)
    ensures |r| <= |s| && r == s[..|r|] && '.' !in r
    ensures |r| < |s| ==> s[|r|] == '.'
  {
    if s == "" || s[0] == '.' then "" else [s[0]] + BeforeDot(s[1..])
  }

  function AfterDot(s: string): string {
    if |BeforeDot(s)| == |s| then "" else s[|BeforeDot(s)| + 1..]
  }

  function Whole(normalized: string): string {
    BeforeDot(normalized)
  }

  // Anything from a second dot on is ignored.
  function Fraction(normalized: string): string {
    BeforeDot(AfterDot(normalized))
  }

  // `padEnd(2, '0').slice(0, 2)`
  function TwoDigits(frac: string): (r: string)
    ensures |r| == 2
    ensures D.AllDigits(frac) ==> D.AllDigits(r)
  {
    var padded := if |frac| == 0 then "00" else if |frac| == 1 then frac + "0" else frac;
    padded[..2]
  }

  predicate LooksScientific(normalized: string) {
    'e' in normalized || 'E' in normalized
  }

  function CentsFrom(whole: string, frac: string): Result<nat, string> {
    if whole == "" || !D.AllDigits(whole) || !D.AllDigits(frac) then Err("amount_INVALID")
    else
      var cents := D.Value(whole) * 100 + D.Value(TwoDigits(frac));
      if cents <= 0 then Err("amount_MUST_BE_POSITIVE") else Ok(cents)
  }

  /** The text that is split: without outer white space, then without commas. */
  function Normalized(amount: string): string {
    RemoveCommas(Trim(amount))
  }

  /** From the text without commas on. */
  function CentsOf(normalized: string): Result<nat, string> {
    if LooksScientific(normalized) then Err("amount_INVALID_FORMAT")
    else CentsFrom(Whole(normalized), Fraction(normalized))
  }

  /** `convertAmountToSmallestUnitCents` of a string. */
  function ConvertAmount(amount: string): Result<nat, string> {
    if Trim(amount) == "" then Err("amount_REQUIRED") else CentsOf(Normalized(amount))
  }

  // ----- the value of the decimal

  function Pow10(k: nat): nat {
    if k == 0 then 1 else 10 * Pow10(k - 1)
  }

  lemma {:induction false} ValueOfParts(a: string, b: string)
    requires D.AllDigits(a) && D.AllDigits(b)
    ensures D.AllDigits(a + b) && D.Value(a + b) == D.Value(a) * Pow10(|b|) + D.Value(b)
    decreases |b|
  {
    if b == "" {
      assert a + b == a;
    } else {
      var init := b[..|b| - 1];
      ValueOfParts(a, init);
      assert (a + b)[..|a + b| - 1] == a + init;
      Distribute(D.Value(a), Pow10(|b| - 1), D.Value(init), D.DigitValue(b[|b| - 1]));
    }
  }

  lemma Distribute(x: nat, p: nat, y: nat, d: nat)
    ensures 10 * (x * p + y) + d == x * (10 * p) + (10 * y + d)
  {
    assert x * (10 * p) == 10 * (x * p);
  }

  lemma {:induction false} ValueBound(s: string)
    requires D.AllDigits(s)
    ensures D.Value(s) < Pow10(|s|)
  {
    if s != "" {
      ValueBound(s[..|s| - 1]);
    }
  }

  ghost predicate RoundsDown(c: nat, p: nat, v: nat) {
    c * p <= 100 * v < (c + 1) * p
  }

  lemma NoDigitsRoundDown()
    ensures RoundsDown(D.Value("00"), Pow10(0), D.Value(""))
  {
    assert "00"[..1] == "0" && "0"[..0] == "";
  }

  lemma {:induction false} OneDigitRoundsDown(f: string)
    requires D.AllDigits(f) && |f| == 1
    ensures RoundsDown(D.Value(f + "0"), Pow10(1), D.Value(f))
  {
    assert (f + "0")[..1] == f;
    assert D.Value(f + "0") == 10 * D.Value(f);
  }

  lemma {:induction false} MoreDigitsRoundDown(two: string, rest: string)
    requires D.AllDigits(two) && D.AllDigits(rest) && |two| == 2
    ensures RoundsDown(D.Value(two), Pow10(|two + rest|), D.Value(two + rest))
  {
    ValueOfParts(two, rest);
    ValueBound(rest);
    var k := |rest|;
    assert Pow10(k + 2) == 10 * Pow10(k + 1) && Pow10(k + 1) == 10 * Pow10(k);
    ScaleBy100(D.Value(two), Pow10(k), D.Value(rest));
  }

  /** The first two decimals of a fraction, times its scale, are its value times 100 rounded down. */
  lemma {:induction false} TwoDigitsRoundDown(f: string)
    requires D.AllDigits(f)
    ensures RoundsDown(D.Value(TwoDigits(f)), Pow10(|f|), D.Value(f))
  {
    if |f| == 0 {
      NoDigitsRoundDown();
    } else if |f| == 1 {
      assert (f + "0")[..2] == f + "0";
      OneDigitRoundsDown(f);
    } else {
      assert f == f[..2] + f[2..];
      MoreDigitsRoundDown(f[..2], f[2..]);
    }
  }

  lemma ScaleBy100(c: nat, q: nat, r: nat)
    requires r < q
    ensures RoundsDown(c, 100 * q, c * q + r)
  {
    assert c * (100 * q) == 100 * (c * q) && (c + 1) * (100 * q) == 100 * (c * q) + 100 * q;
  }

  /**
   Exactness: an accepted text with digits w before and f after its dot stands for the number wf / 10^|f|, and
   its cents are 100 times that number rounded down, so less than a cent is lost.
   */
  lemma CentsAreTheValueRoundedDown(normalized: string)
    requires CentsOf(normalized).Ok?
    ensures var w, f := Whole(normalized), Fraction(normalized);
      var cents, p := CentsOf(normalized).value, Pow10(|f|);
      D.AllDigits(w + f) && RoundsDown(cents, p, D.Value(w + f))
  {
    var w, f := Whole(normalized), Fraction(normalized);
    ValueOfParts(w, f);
    TwoDigitsRoundDown(f);
    AddWhole(D.Value(w), D.Value(TwoDigits(f)), Pow10(|f|), D.Value(f));
  }

  lemma AddWhole(w: nat, c: nat, p: nat, v: nat)
    requires RoundsDown(c, p, v)
    ensures RoundsDown(w * 100 + c, p, w * p + v)
  {
    assert (w * 100 + c) * p == 100 * (w * p) + c * p;
    assert (w * 100 + c + 1) * p == 100 * (w * p) + (c + 1) * p;
  }

  predicate HasSecondDot(normalized: string) {
    '.' in AfterDot(normalized)
  }

  /** Whole and fraction make up the whole text exactly if there is no second dot. */
  lemma WholeTextIsRead(s: string)
    ensures (s == Whole(s) || s == Whole(s) + "." + Fraction(s)) <==> !HasSecondDot(s)
    ensures s == Whole(s) ==> Fraction(s) == ""
  {
    DotIsFound(s);
    DotIsFound(AfterDot(s));
    if '.' in s {
      assert s == Whole(s) + "." + AfterDot(s);
      assert |Whole(s) + "." + Fraction(s)| == |Whole(s)| + 1 + |Fraction(s)|;
    }
  }

  /**
   An accepted amount denotes a decimal number wf / 10^|f|, and its cents are 100 times that number rounded down.
   The digits w and f are the whole text, but for the dot between them, exactly if there is no second dot.
   */
  lemma AmountIsItsValueRoundedDown(amount: string)
    requires ConvertAmount(amount).Ok?
    ensures var n, cents := Normalized(amount), ConvertAmount(amount).value;
      var w, f := Whole(n), Fraction(n);
      && D.AllDigits(w + f) && RoundsDown(cents, Pow10(|f|), D.Value(w + f))
      && ((n == w || n == w + "." + f) <==> !HasSecondDot(n))
  {
    CentsAreTheValueRoundedDown(Normalized(amount));
    WholeTextIsRead(Normalized(amount));
  }

  /** Which texts are accepted: digits before the dot, only digits after it, no exponent, and at least one cent. */
  lemma AcceptedExactly(amount: string)
    ensures var n := Normalized(amount);
      var w, f := Whole(n), Fraction(n);
      ConvertAmount(amount).Ok? <==>
        && !LooksScientific(n) && w != "" && D.AllDigits(w) && D.AllDigits(f)
        && D.AllDigits(w + f) && 100 * D.Value(w + f) >= Pow10(|f|)
  {
    var n := Normalized(amount);
    var w, f := Whole(n), Fraction(n);
    if D.AllDigits(w) && D.AllDigits(f) {
      ValueOfParts(w, f);
      TwoDigitsRoundDown(f);
      AddWhole(D.Value(w), D.Value(TwoDigits(f)), Pow10(|f|), D.Value(f));
      AtLeastOneCent(D.Value(w) * 100 + D.Value(TwoDigits(f)), Pow10(|f|), D.Value(w + f));
    }
  }

  /** Which error a refused text gives. */
  lemma RefusalsSpelledOut(amount: string)
    ensures ConvertAmount(amount) == Err("amount_REQUIRED") <==> Trim(amount) == ""
    ensures var n, r := Normalized(amount), ConvertAmount(amount);
      var plain := Whole(n) != "" && D.AllDigits(Whole(n)) && D.AllDigits(Fraction(n));
      Trim(amount) != "" ==>
        && (r == Err("amount_INVALID_FORMAT") <==> 'e' in n || 'E' in n)
        && (r == Err("amount_INVALID") <==> 'e' !in n && 'E' !in n && !plain)
        && (r == Err("amount_MUST_BE_POSITIVE") <==> 'e' !in n && 'E' !in n && plain && r.Err?)
  {
    assert "amount_INVALID" != "amount_INVALID_FORMAT" by {
      assert |"amount_INVALID"| == 14;
    }
    assert "amount_INVALID"[7] != "amount_MUST_BE_POSITIVE"[7] && "amount_REQUIRED"[7] != "amount_INVALID"[7];
    assert "amount_INVALID_FORMAT"[7] != "amount_MUST_BE_POSITIVE"[7];
  }

  lemma AtLeastOneCent(c: nat, p: nat, v: nat)
    requires RoundsDown(c, p, v)
    ensures c > 0 <==> 100 * v >= p
  {
    if c > 0 {
      AtLeastOnce(c, p);
    }
  }

  lemma AtLeastOnce(c: nat, p: nat)
    requires c > 0
    ensures c * p >= p
  {
    var k: nat := c - 1;
    assert k * p >= 0 && (k + 1) * p == k * p + p;
  }

  // ----- what the text may look like

  lemma {:induction false} BeforeDotOf(a: string, b: string)
    requires '.' !in a
    ensures BeforeDot(a + "." + b) == a && AfterDot(a + "." + b) == b
    ensures BeforeDot(a) == a
  {
    var s := a + "." + b;
    if a != "" {
      BeforeDotOf(a[1..], b);
      assert s[1..] == a[1..] + "." + b;
      assert BeforeDot(s) == a;
    }
    assert s[|a| + 1..] == b;
  }

  /** A second dot and what follows it do not change the result. */
  lemma SecondDotIsIgnored(short: string, long: string, a: string, b: string, c: string)
    requires '.' !in a && '.' !in b && !LooksScientific(c)
    requires short == a + "." + b && long == a + "." + b + "." + c
    ensures CentsOf(long) == CentsOf(short)
  {
    PartsOfTwoDots(a, b, c);
    TailIsNotScientific(short, long, c);
    SamePartsSameCents(long, short);
  }

  lemma SamePartsSameCents(s: string, t: string)
    requires CentsFrom(Whole(s), Fraction(s)) == CentsFrom(Whole(t), Fraction(t))
    requires LooksScientific(s) == LooksScientific(t)
    ensures CentsOf(s) == CentsOf(t)
  {
  }

  lemma TailIsNotScientific(short: string, long: string, c: string)
    requires long == short + "." + c && !LooksScientific(c)
    ensures LooksScientific(long) == LooksScientific(short)
  {
    assert long == short + ("." + c) && !LooksScientific("." + c);
    NotScientific(short, "." + c);
  }

  lemma PartsOfTwoDots(a: string, b: string, c: string)
    requires '.' !in a && '.' !in b
    ensures Whole(a + "." + b + "." + c) == Whole(a + "." + b) && Fraction(a + "." + b + "." + c) == Fraction(a + "." + b)
  {
    assert a + "." + b + "." + c == a + "." + (b + "." + c);
    BeforeDotOf(a, b + "." + c);
    BeforeDotOf(a, b);
    BeforeDotOf(b, c);
  }

  lemma NotScientific(s: string, t: string)
    requires !LooksScientific(t)
    ensures LooksScientific(s + t) <==> LooksScientific(s)
  {
  }

  lemma CommaIsDropped(a: string, b: string)
    ensures RemoveCommas(a + "," + b) == RemoveCommas(a + b)
  {
    EncodeOfParts(DropComma, a + ",", b);
    EncodeOfParts(DropComma, a, ",");
    EncodeOfParts(DropComma, a, b);
    assert Encode(DropComma, ",") == "";
    assert Encode(DropComma, a) + "" == Encode(DropComma, a);
  }

  lemma {:induction false} NothingToRemove(s: string)
    requires ',' !in s
    ensures RemoveCommas(s) == s
  {
    if s != "" {
      NothingToRemove(s[1..]);
    }
  }

  lemma CommaKeepsTrimmed(a: string, b: string)
    requires IsTrimmed(a + b)
    ensures IsTrimmed(a + "," + b)
  {
    var s, t := a + b, a + "," + b;
    assert t[0] == (if a == "" then ',' else s[0]) && t[|t| - 1] == if b == "" then ',' else s[|s| - 1];
  }

  lemma ZeroIsKept(s: string)
    ensures RemoveCommas(s + "0") == RemoveCommas(s) + "0"
  {
    EncodeOfParts(DropComma, s, "0");
    NothingToRemove("0");
  }

  lemma {:induction false} DotsStay(s: string)
    requires '.' in s
    ensures '.' in RemoveCommas(s)
  {
    if s[0] != '.' {
      assert s == [s[0]] + s[1..];
      DotsStay(s[1..]);
    }
  }

  lemma {:induction false} BeforeDotAppend(s: string, z: string)
    requires '.' !in z
    ensures BeforeDot(s + z) == if '.' in s then BeforeDot(s) else s + z
  {
    if s == "" {
      assert s + z == z;
      DotIsFound(z);
    } else {
      assert (s + z)[1..] == s[1..] + z;
      assert s == [s[0]] + s[1..];
      BeforeDotAppend(s[1..], z);
    }
  }

  lemma {:induction false} DotIsFound(s: string)
    ensures '.' in s <==> |BeforeDot(s)| < |s|
    ensures '.' !in s ==> BeforeDot(s) == s
  {
    if |BeforeDot(s)| == |s| {
      assert BeforeDot(s) == s;
    }
  }

  lemma AppendZeroToFraction(s: string)
    requires '.' in s
    ensures Whole(s + "0") == Whole(s)
    ensures Fraction(s + "0") == Fraction(s) || Fraction(s + "0") == Fraction(s) + "0"
  {
    BeforeDotAppend(s, "0");
    DotIsFound(s);
    assert AfterDot(s + "0") == AfterDot(s) + "0";
    BeforeDotAppend(AfterDot(s), "0");
    DotIsFound(AfterDot(s));
  }

  lemma ZeroIsNeutral(f: string)
    ensures D.AllDigits(f + "0") <==> D.AllDigits(f)
    ensures D.AllDigits(f) ==> D.Value(TwoDigits(f + "0")) == D.Value(TwoDigits(f))
  {
    assert forall i :: 0 <= i < |f| ==> (f + "0")[i] == f[i];
    assert TwoDigits(f + "0") == TwoDigits(f);
  }

  lemma ZeroKeepsCents(w: string, f: string)
    ensures CentsFrom(w, f + "0") == CentsFrom(w, f)
  {
    ZeroIsNeutral(f);
  }

  lemma AppendZero(s: string)
    requires '.' in s
    ensures CentsOf(s + "0") == CentsOf(s)
  {
    AppendZeroToFraction(s);
    ZeroKeepsCents(Whole(s), Fraction(s));
    NotScientific(s, "0");
    SamePartsSameCents(s + "0", s);
  }

  // ----- white space inside

  lemma {:induction false} SpacesInFront(z: string, n: string)
    requires z != "" && IsSpace(z[0])
    ensures CentsOf(z + n).Err?
  {
    var m := z + n;
    assert m[0] == z[0] && Whole(m)[0] == m[0];
    SpaceInWhole(m, 0);
  }

  /** Text after white space spoils an amount, unless it stands behind a second dot. */
  lemma {:induction false} SpacesBehind(n: string, z: string)
    requires z != "" && IsSpace(z[0]) && '.' !in z && !LooksScientific(z)
    ensures CentsOf(n + z).Ok? <==> CentsOf(n).Ok? && HasSecondDot(n)
    ensures CentsOf(n + z).Ok? ==> CentsOf(n + z) == CentsOf(n)
  {
    var m := n + z;
    DotIsFound(n);
    if '.' !in n {
      BeforeDotAppend(n, z);
      assert m[|n|] == z[0];
      SpaceInWhole(m, |n|);
    } else if '.' !in AfterDot(n) {
      PartsBehind(n, z, m);
      assert (AfterDot(n) + z)[|AfterDot(n)|] == z[0];
      SpaceInFraction(m, |AfterDot(n)|);
    } else {
      PartsBehind(n, z, m);
      NotScientific(n, z);
      SamePartsSameCents(m, n);
    }
  }

  lemma PartsBehind(n: string, z: string, m: string)
    requires m == n + z && '.' in n && '.' !in z
    ensures Whole(m) == Whole(n)
    ensures Fraction(m) == if '.' in AfterDot(n) then Fraction(n) else AfterDot(n) + z
  {
    BeforeDotAppend(n, z);
    DotIsFound(n);
    assert AfterDot(m) == AfterDot(n) + z;
    BeforeDotAppend(AfterDot(n), z);
  }

  lemma SpaceInWhole(m: string, i: nat)
    requires i < |Whole(m)| && IsSpace(Whole(m)[i])
    ensures CentsOf(m).Err?
  {
  }

  lemma SpaceInFraction(m: string, i: nat)
    requires i < |Fraction(m)| && IsSpace(Fraction(m)[i])
    ensures CentsOf(m).Err?
  {
  }

  lemma BlankIsKept(z: string)
    requires Blank(z)
    ensures RemoveCommas(z) == z && '.' !in z && !LooksScientific(z)
  {
    NothingToRemove(z);
  }

  lemma ConvertAround(s: string, x: string, core: string, y: string)
    requires s == x + core + y && Blank(x) && Blank(y) && IsTrimmed(core)
    ensures Trim(s) == core && ConvertAmount(s) == CentsOf(RemoveCommas(core))
  {
    TrimOf(s, x, core, y);
  }

  lemma CommaTouching(x: string, c: string, d: string, y: string)
    requires Blank(x) && Blank(y) && IsTrimmed(c + d)
    ensures ConvertAmount(x + (c + "," + d) + y) == ConvertAmount(x + (c + d) + y)
  {
    CommaKeepsTrimmed(c, d);
    ConvertAround(x + (c + "," + d) + y, x, c + "," + d, y);
    ConvertAround(x + (c + d) + y, x, c + d, y);
    CommaIsDropped(c, d);
  }

  lemma CommaInFront(x: string, z: string, core: string, y: string)
    requires Blank(x) && Blank(y) && IsTrimmed(core) && z != "" && Blank(z)
    ensures ConvertAmount(x + ("," + (z + core)) + y).Err?
  {
    var trimmed := "," + (z + core);
    assert trimmed[0] == ',' && trimmed[|trimmed| - 1] == core[|core| - 1];
    ConvertAround(x + trimmed + y, x, trimmed, y);
    EncodeOfParts(DropComma, ",", z + core);
    EncodeOfParts(DropComma, z, core);
    BlankIsKept(z);
    assert RemoveCommas(",") == "" && RemoveCommas(trimmed) == "" + (z + RemoveCommas(core));
    assert RemoveCommas(trimmed) == z + RemoveCommas(core);
    SpacesInFront(z, RemoveCommas(core));
  }

  lemma CommaBehind(x: string, core: string, z: string, y: string)
    requires Blank(x) && Blank(y) && IsTrimmed(core) && z != "" && Blank(z)
    ensures var n := RemoveCommas(core);
      var r := ConvertAmount(x + ((core + z) + ",") + y);
      (r.Ok? <==> CentsOf(n).Ok? && HasSecondDot(n)) && (r.Ok? ==> r == CentsOf(n))
  {
    var trimmed := (core + z) + ",";
    assert trimmed[0] == core[0] && trimmed[|trimmed| - 1] == ',';
    ConvertAround(x + trimmed + y, x, trimmed, y);
    EncodeOfParts(DropComma, core + z, ",");
    EncodeOfParts(DropComma, core, z);
    BlankIsKept(z);
    assert RemoveCommas(",") == "" && RemoveCommas(trimmed) == (RemoveCommas(core) + z) + "";
    assert RemoveCommas(trimmed) == RemoveCommas(core) + z;
    SpacesBehind(RemoveCommas(core), z);
  }

  // A comma before or behind the amount and apart from it.
  predicate ApartInFront(a: string, b: string) {
    Blank(a) && b != "" && IsSpace(b[0])
  }

  predicate ApartBehind(a: string, b: string) {
    Blank(b) && a != "" && IsSpace(a[|a| - 1])
  }

  // What a comma between `a` and `b` makes of a result `q` for the normalised text `n`.
  predicate CommaEffect(r: Result<nat, string>, q: Result<nat, string>, a: string, b: string, n: string) {
    && (r.Ok? <==> q.Ok? && !ApartInFront(a, b) && (ApartBehind(a, b) ==> HasSecondDot(n)))
    && (r.Ok? ==> r == q)
    && (!ApartInFront(a, b) && !ApartBehind(a, b) ==> r == q)
  }

  /**
   A comma, put anywhere into any text, changes nothing unless white space sets it apart from the amount. Then the
   text is refused, except behind an amount with a second dot.
   */
  lemma CommaMattersExactly(a: string, b: string)
    ensures Trim(a + b) == "" ==> ConvertAmount(a + b).Err? && ConvertAmount(a + "," + b).Err?
    ensures Trim(a + b) != "" ==>
      CommaEffect(ConvertAmount(a + "," + b), ConvertAmount(a + b), a, b, Normalized(a + b))
  {
    var s := a + b;
    var x, y := TrimParts(s);
    var core := Trim(s);
    if core == "" {
      OnlyAComma(a, b);
    } else {
      ConvertAround(s, x, core, y);
      CommaAt(a, b, x, core, y);
    }
  }

  lemma OnlyAComma(a: string, b: string)
    requires Blank(a + b)
    ensures ConvertAmount(a + "," + b).Err?
  {
    assert forall i :: 0 <= i < |a| ==> a[i] == (a + b)[i];
    assert forall i :: 0 <= i < |b| ==> b[i] == (a + b)[|a| + i];
    ConvertAround(a + "," + b, a, ",", b);
    assert RemoveCommas(",") == "";
  }

  lemma CommaAt(a: string, b: string, x: string, core: string, y: string)
    requires a + b == x + core + y && Blank(x) && Blank(y) && IsTrimmed(core)
    ensures CommaEffect(ConvertAmount(a + "," + b), CentsOf(RemoveCommas(core)), a, b, RemoveCommas(core))
  {
    var s, p := a + b, |a|;
    assert a == s[..p] && b == s[p..];
    if p < |x| {
      var z := x[p..];
      assert a == x[..p] && b == z + core + y;
      CommaAtInFront(a, z, b, core, y);
    } else if p <= |x| + |core| {
      var c, d := core[..p - |x|], core[p - |x|..];
      assert core == c + d && a == x + c && b == d + y;
      CommaAtTouching(x, c, d, y, a, b);
    } else {
      var z := y[..p - |x| - |core|];
      assert a == x + core + z;
      CommaAtBehind(x, core, z, a, b);
    }
  }

  lemma CommaAtInFront(a: string, z: string, b: string, core: string, y: string)
    requires b == z + core + y && Blank(a) && Blank(y) && IsTrimmed(core) && z != "" && Blank(z)
    ensures ApartInFront(a, b) && ConvertAmount(a + "," + b).Err?
  {
    assert a + "," + b == a + ("," + (z + core)) + y;
    CommaInFront(a, z, core, y);
    assert b[0] == z[0];
  }

  lemma {:induction false} CommaAtTouching(x: string, c: string, d: string, y: string, a: string, b: string)
    requires a == x + c && b == d + y && Blank(x) && Blank(y) && IsTrimmed(c + d)
    ensures !ApartInFront(a, b) && !ApartBehind(a, b)
    ensures ConvertAmount(a + "," + b) == CentsOf(RemoveCommas(c + d))
  {
    CommaBetween(x, c, d, y);
    CommaTouching(x, c, d, y);
    ConvertAround(x + (c + d) + y, x, c + d, y);
    NotApart(x, c, d, y);
  }

  lemma CommaBetween(x: string, c: string, d: string, y: string)
    ensures (x + c) + "," + (d + y) == x + (c + "," + d) + y
  {
  }

  lemma CommaAtBehind(x: string, core: string, z: string, a: string, b: string)
    requires a == x + core + z && Blank(x) && Blank(b) && IsTrimmed(core) && z != "" && Blank(z)
    ensures ApartBehind(a, b) && !ApartInFront(a, b)
    ensures CommaEffect(ConvertAmount(a + "," + b), CentsOf(RemoveCommas(core)), a, b, RemoveCommas(core))
  {
    assert a + "," + b == x + ((core + z) + ",") + b;
    assert a[|x|] == core[0] && a[|a| - 1] == z[|z| - 1];
    CommaBehind(x, core, z, b);
  }

  lemma NotApart(x: string, c: string, d: string, y: string)
    requires IsTrimmed(c + d)
    ensures !ApartInFront(x + c, d + y) && !ApartBehind(x + c, d + y)
  {
    if c != "" {
      assert (x + c)[|x|] == c[0] == (c + d)[0];
    } else {
      assert (d + y)[0] == d[0] == (c + d)[0];
    }
    if d != "" {
      assert (d + y)[|d| - 1] == d[|d| - 1] == (c + d)[|c + d| - 1];
    } else {
      assert (x + c)[|x + c| - 1] == c[|c| - 1] == (c + d)[|c + d| - 1];
    }
  }

  /**
   A zero put after any text with a fraction changes nothing unless the text ends in white space. Then it is
   refused, except behind an amount with a second dot.
   */
  lemma ZeroMattersExactly(s: string)
    requires '.' in s
    ensures var r, q := ConvertAmount(s + "0"), ConvertAmount(s);
      && (r.Ok? <==> q.Ok? && (IsSpace(s[|s| - 1]) ==> HasSecondDot(Normalized(s))))
      && (r.Ok? ==> r == q)
      && (!IsSpace(s[|s| - 1]) ==> r == q)
  {
    var x, y := TrimParts(s);
    var core := Trim(s);
    DotInCore(s, x, core, y);
    ConvertAround(s, x, core, y);
    if y == "" {
      ZeroTouching(s, x, core, s + "0");
    } else {
      ZeroBehind(s, x, core, y, s + "0");
    }
  }

  lemma DotInCore(s: string, x: string, core: string, y: string)
    requires s == x + core + y && Blank(x) && Blank(y) && '.' in s
    ensures '.' in core
  {
    BlankIsKept(x);
    BlankIsKept(y);
  }

  lemma ZeroTouching(s: string, x: string, core: string, t: string)
    requires s == x + core + "" && t == s + "0" && Blank(x) && IsTrimmed(core) && '.' in core
    ensures !IsSpace(s[|s| - 1]) && ConvertAmount(t) == CentsOf(RemoveCommas(core))
  {
    var trimmed := core + "0";
    assert trimmed[0] == core[0] && trimmed[|core|] == '0';
    assert t == x + trimmed + "" && s[|s| - 1] == core[|core| - 1];
    ConvertAround(t, x, trimmed, "");
    ZeroIsKept(core);
    DotsStay(core);
    AppendZero(RemoveCommas(core));
  }

  lemma ZeroBehind(s: string, x: string, core: string, z: string, t: string)
    requires s == x + core + z && t == s + "0" && Blank(x) && IsTrimmed(core) && z != "" && Blank(z)
    ensures var n := RemoveCommas(core);
      (ConvertAmount(t).Ok? <==> CentsOf(n).Ok? && HasSecondDot(n)) && (ConvertAmount(t).Ok? ==> ConvertAmount(t) == CentsOf(n))
    ensures IsSpace(s[|s| - 1])
  {
    var tail := z + "0";
    var trimmed := core + tail;
    assert trimmed[0] == core[0] && trimmed[|trimmed| - 1] == '0' && s[|s| - 1] == z[|z| - 1];
    assert t == x + trimmed + "";
    ConvertAround(t, x, trimmed, "");
    TailIsKept(core, z);
    SpacesBehind(RemoveCommas(core), tail);
  }

  lemma TailIsKept(core: string, z: string)
    requires Blank(z) && z != ""
    ensures RemoveCommas(core + (z + "0")) == RemoveCommas(core) + (z + "0")
    ensures (z + "0")[0] == z[0] && '.' !in z + "0" && !LooksScientific(z + "0")
  {
    EncodeOfParts(DropComma, core, z + "0");
    ZeroIsKept(z);
    BlankIsKept(z);
  }

  /** An accepted text that a comma turns into a refused one. */
  lemma StrayComma()
    ensures ConvertAmount(" 5") == Ok(500) && ConvertAmount(", 5").Err?
  {
    Five();
    CommaInFrontOf("", " 5", ", 5");
  }

  /** And one that a zero after its fraction does. */
  lemma StrayZero()
    ensures ConvertAmount("1.5 ") == Ok(150) && ConvertAmount("1.5 0").Err?
  {
    OneAndAHalf();
    ZeroAfterSpace("1.5 ", "1.5 0");
  }

  lemma CommaInFrontOf(a: string, b: string, t: string)
    requires ApartInFront(a, b) && t == a + "," + b
    ensures ConvertAmount(t).Err?
  {
    CommaMattersExactly(a, b);
  }

  lemma ZeroAfterSpace(s: string, t: string)
    requires '.' in s && IsSpace(s[|s| - 1]) && !HasSecondDot(Normalized(s)) && t == s + "0"
    ensures ConvertAmount(t).Err?
  {
    ZeroMattersExactly(s);
  }

  lemma Five()
    ensures ConvertAmount(" 5") == Ok(500)
  {
    ConvertAround(" 5", " ", "5", "");
    NothingToRemove("5");
    DotIsFound("5");
    assert D.Value("5") == 10 * D.Value("5"[..0]) + 5 && D.Value("00") == 0 by {
      assert "00"[..1] == "0" && "0"[..0] == "";
    }
  }

  /** An amount in plain decimals, with any white space around it. */
  lemma PlainAmount(s: string, x: string, w: string, f: string, y: string)
    requires s == x + (w + "." + f) + y && Blank(x) && Blank(y)
    requires w != "" && f != "" && D.AllDigits(w) && D.AllDigits(f)
    ensures ConvertAmount(s) == CentsFrom(w, f) && !HasSecondDot(Normalized(s))
  {
    var core := w + "." + f;
    PlainText(w, f);
    ConvertAround(s, x, core, y);
    NothingToRemove(core);
    PlainParts(core, w, f);
    BeforeDotOf(w, f);
    DigitsAreNoSymbols(f);
  }

  lemma OneAndAHalf()
    ensures ConvertAmount("1.5 ") == Ok(150) && !HasSecondDot(Normalized("1.5 "))
  {
    assert "1.5 " == "" + ("1" + "." + "5") + " ";
    PlainAmount("1.5 ", "", "1", "5", " ");
    ValueOfFifty();
  }

  lemma ValueOfFifty()
    ensures TwoDigits("5") == "50" && D.Value("50") == 50 && D.Value("1") == 1
  {
    assert "50"[..1] == "5" && "5"[..0] == "" && "1"[..0] == "";
    assert D.Value("5") == 5;
  }

  /** A cent count in major units with two decimals. */
  function RenderCents(cents: nat): string {
    D.Render(cents / 100) + "." + [D.Digit(cents % 100 / 10), D.Digit(cents % 10)]
  }

  lemma DigitsAreNoSymbols(s: string)
    requires D.AllDigits(s)
    ensures '.' !in s && ',' !in s && 'e' !in s && 'E' !in s
    ensures s != "" ==> !IsSpace(s[0]) && !IsSpace(s[|s| - 1])
  {
  }

  lemma {:induction false} ValueOfTwo(f: string)
    requires D.AllDigits(f) && |f| == 2
    ensures D.Value(f) == 10 * D.DigitValue(f[0]) + D.DigitValue(f[1]) && TwoDigits(f) == f
  {
    assert f[..1] == [f[0]] && [f[0]][..0] == "" && f[..2] == f;
    assert D.Value([f[0]]) == D.DigitValue(f[0]);
  }

  lemma PlainParts(s: string, w: string, f: string)
    requires s == w + "." + f && D.AllDigits(w) && D.AllDigits(f)
    ensures Whole(s) == w && Fraction(s) == f && !LooksScientific(s)
  {
    DigitsAreNoSymbols(w);
    DigitsAreNoSymbols(f);
    BeforeDotOf(w, f);
    DotIsFound(f);
  }

  lemma {:induction false} CentsFromDigits(w: string, f: string)
    requires w != "" && D.AllDigits(w) && D.AllDigits(f) && |f| == 2
    requires D.Value(w) * 100 + D.Value(f) > 0
    ensures CentsFrom(w, f) == Ok(D.Value(w) * 100 + D.Value(f))
  {
    ValueOfTwo(f);
  }

  lemma PartsOfRender(cents: nat) returns (w: string, f: string)
    ensures RenderCents(cents) == w + "." + f && w != "" && |f| == 2
    ensures D.AllDigits(w) && D.AllDigits(f) && D.Value(w) * 100 + D.Value(f) == cents
  {
    w, f := D.Render(cents / 100), [D.Digit(cents % 100 / 10), D.Digit(cents % 10)];
    ValueOfTwo(f);
  }

  lemma PlainText(w: string, f: string)
    requires w != "" && f != "" && D.AllDigits(w) && D.AllDigits(f)
    ensures var s := w + "." + f;
      ',' !in s && IsTrimmed(s)
  {
    DigitsAreNoSymbols(w);
    DigitsAreNoSymbols(f);
    var s := w + "." + f;
    assert s[0] == w[0] && s[|s| - 1] == f[|f| - 1];
  }

  /** Parsing a rendered amount gives it back. */
  lemma ParseOfRender(cents: nat)
    requires cents > 0
    ensures ConvertAmount(RenderCents(cents)) == Ok(cents)
  {
    var w, f := PartsOfRender(cents);
    var s := RenderCents(cents);
    assert s == "" + (w + "." + f) + "";
    PlainAmount(s, "", w, f, "");
    CentsFromDigits(w, f);
  }
}
