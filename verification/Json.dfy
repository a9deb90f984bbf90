/**
 The canonical serialiser `stableStringify` (sorted keys) and `JSON.stringify` (keys in insertion
 order), as one printer with a flag. Strings are quoted as section 7 of RFC 8259 and
 `JSON.stringify` require. Characters are Unicode scalar values, numbers are integers.
 */
module Json {
  import opened Sorting
  import opened Texts
  import D = Decimal

  datatype Json =
    | Null
    | Bool(b: bool)
    | Num(n: int)
    | Str(s: string)
    | Arr(items: seq<Json>)
    | Obj(fields: seq<Field>)

  // An object lists its members in insertion order.
  datatype Field = Field(key: string, value: Json)

  predicate FieldLe(f: Field, g: Field) {
    StringLe(f.key, g.key)
  }

  function HexDigit(k: nat): char
    requires k < 16
  {
    "0123456789abcdef"[k]
  }

  // The letter that follows the backslash of an escape.
  function EscapeLetter(c: char): char {
    match c as int
    case 8 => 'b'
    case 9 => 't'
    case 10 => 'n'
    case 12 => 'f'
    case 13 => 'r'
    case _ => if c == '\"' || c == '\\' then c else 'u'
  }

  function EscapeChar(c: char): string {
    if c as int >= 32 && c != '\"' && c != '\\' then [c]
    else if EscapeLetter(c) != 'u' then ['\\', EscapeLetter(c)]
    else ['\\', 'u', '0', '0', HexDigit(c as int / 16), HexDigit(c as int % 16)]
  }

  function Quote(s: string): string {
    "\"" + (Encode(EscapeChar, s) + "\"")
  }

  function PrintInt(n: int): string {
    if n < 0 then "-" + D.Render(-n) else D.Render(n)
  }

  function Ordered(sortKeys: bool, fields: seq<Field>): (r: seq<Field>)
    ensures multiset(r) == multiset(fields) && |r| == |fields|
  {
    if sortKeys then Sort(FieldLe, fields) else fields
  }

  function Print(sortKeys: bool, v: Json): string
    decreases v, 1
  {
    match v
    case Null => "null"
    case Bool(b) => if b then "true" else "false"
    case Num(n) => PrintInt(n)
    case Str(s) => Quote(s)
    case Arr(_) => "[" + (Join(Parts(sortKeys, v)) + "]")
    case Obj(_) => "{" + (Join(Parts(sortKeys, v)) + "}")
  }

  /** The printed elements of an array, or the printed members of an object in printing order. */
  function Parts(sortKeys: bool, v: Json): seq<string>
    requires v.Arr? || v.Obj?
    decreases v, 0
  {
    match v
    case Arr(items) => seq(|items|, i requires 0 <= i < |items| => Print(sortKeys, items[i]))
    case Obj(fields) =>
      var fs := Ordered(sortKeys, fields);
      OrderedWithin(sortKeys, v);
      seq(|fs|, i requires 0 <= i < |fs| => PrintMember(fs[i].key, Print(sortKeys, fs[i].value)))
  }

  function PrintMember(key: string, text: string): string {
    Quote(key) + (":" + text)
  }

  /** `stableStringify`. */
  function Stable(v: Json): string {
    Print(true, v)
  }

  /** `JSON.stringify`. */
  function Stringify(v: Json): string {
    Print(false, v)
  }

  lemma OrderedWithin(sortKeys: bool, v: Json)
    requires v.Obj?
    ensures forall i :: 0 <= i < |v.fields| ==>
      Ordered(sortKeys, v.fields)[i] in v.fields && Ordered(sortKeys, v.fields)[i].value < v
  {
    var ordered := Ordered(sortKeys, v.fields);
    forall i | 0 <= i < |v.fields|
      ensures ordered[i] in v.fields && ordered[i].value < v
    {
      assert ordered[i] in multiset(ordered);
    }
  }

  /** No object repeats a key. */
  ghost predicate WellFormed(v: Json) {
    match v
    case Arr(items) => forall i :: 0 <= i < |items| ==> WellFormed(items[i])
    case Obj(fields) =>
      && (forall i, j :: 0 <= i < j < |fields| ==> fields[i].key != fields[j].key)
      && (forall i :: 0 <= i < |fields| ==> WellFormed(fields[i].value))
    case _ => true
  }

  /** Equality of values, where `anyOrder` lets the members of objects be listed in any order. */
  ghost predicate Same(anyOrder: bool, v: Json, w: Json)
    decreases v, 1
  {
    match v
    case Arr(items) =>
      && w.Arr? && |items| == |w.items|
      && forall i :: 0 <= i < |items| ==> Same(anyOrder, items[i], w.items[i])
    case Obj(fields) =>
      && w.Obj? && |fields| == |w.fields|
      && forall i :: 0 <= i < |fields| ==> MemberOf(anyOrder, v, i, w)
    case _ => v == w
  }

  /** Some member of `w` has the key and the value of the i-th member of `v`. */
  ghost predicate MemberOf(anyOrder: bool, v: Json, i: nat, w: Json)
    requires v.Obj? && w.Obj? && i < |v.fields|
    decreases v, 0
  {
    exists j :: 0 <= j < |w.fields| && (anyOrder || i == j) &&
      v.fields[i].key == w.fields[j].key && Same(anyOrder, v.fields[i].value, w.fields[j].value)
  }

  // ----- no printed value is a prefix of another

  lemma EscapeIsPrefixCode()
    ensures PrefixCode(EscapeChar)
  {
    forall c, d, x, y | EscapeChar(c) + x == EscapeChar(d) + y
      ensures c == d
    {
      EscapeCharDecodes(c, d, x, y);
    }
  }

  // The first two characters tell the length of an escape.
  lemma EscapeShape(c: char)
    ensures var e := EscapeChar(c);
      && (|e| == 1 || |e| == 2 || |e| == 6)
      && (|e| == 1 <==> e[0] != '\\')
      && (|e| == 2 ==> e[1] != 'u')
      && (|e| == 6 ==> e[1] == 'u')
  {
  }

  lemma EscapeIsInjective(c: char, d: char)
    requires EscapeChar(c) == EscapeChar(d)
    ensures c == d
  {
    if |EscapeChar(c)| == 6 {
      HexDigitIsInjective(c as int / 16, d as int / 16);
      HexDigitIsInjective(c as int % 16, d as int % 16);
    }
  }

  lemma HexDigitIsInjective(k: nat, l: nat)
    requires k < 16 && l < 16
    ensures HexDigit(k) == HexDigit(l) ==> k == l
  {
  }

  lemma EscapeCharDecodes(c: char, d: char, x: string, y: string)
    requires EscapeChar(c) + x == EscapeChar(d) + y
    ensures c == d
  {
    var a, b := EscapeChar(c), EscapeChar(d);
    EscapeShape(c);
    EscapeShape(d);
    SameCodeLength(a, x, b, y);
    Split(a, x, b, y);
    EscapeIsInjective(c, d);
  }

  lemma SameCodeLength(a: string, x: string, b: string, y: string)
    requires a + x == b + y
    requires |a| in {1, 2, 6} && |b| in {1, 2, 6}
    requires (|a| == 1 <==> a[0] != '\\') && (|a| == 2 ==> a[1] != 'u') && (|a| == 6 ==> a[1] == 'u')
    requires (|b| == 1 <==> b[0] != '\\') && (|b| == 2 ==> b[1] != 'u') && (|b| == 6 ==> b[1] == 'u')
    ensures |a| == |b|
  {
    assert forall i :: 0 <= i < |a| ==> a[i] == (a + x)[i];
    assert forall i :: 0 <= i < |b| ==> b[i] == (b + y)[i];
    assert a[0] == b[0];
    assert |a| > 1 ==> a[1] == b[1];
  }

  lemma QuoteDecodes(s: string, u: string, r: string, t: string)
    requires Quote(s) + r == Quote(u) + t
    ensures s == u && r == t
  {
    EscapeIsPrefixCode();
    QuoteEnd(s, r);
    QuoteEnd(u, t);
    Peel('\"', Encode(EscapeChar, s) + ("\"" + r), '\"', Encode(EscapeChar, u) + ("\"" + t));
    EncodeDecodes(EscapeChar, s, u, r, t);
  }

  lemma {:induction false} QuoteEnd(s: string, r: string)
    ensures Quote(s) + r == "\"" + (Encode(EscapeChar, s) + ("\"" + r))
  {
    Assoc("\"", Encode(EscapeChar, s) + "\"", r);
    Assoc(Encode(EscapeChar, s), "\"", r);
  }

  // The first character tells the kind of a value.
  predicate Leads(c: char, v: Json) {
    match v
    case Null => c == 'n'
    case Bool(b) => c == if b then 't' else 'f'
    case Num(n) => if n < 0 then c == '-' else D.IsDigit(c)
    case Str(_) => c == '\"'
    case Arr(_) => c == '['
    case Obj(_) => c == '{'
  }

  lemma {:induction false} PrintLeads(sortKeys: bool, v: Json)
    ensures Print(sortKeys, v) != "" && Leads(Print(sortKeys, v)[0], v)
  {
  }

  lemma {:induction false} NegativeDecodes(n: nat, m: nat, r: string, t: string)
    requires ("-" + D.Render(n)) + r == ("-" + D.Render(m)) + t
    requires Delimited(r) && Delimited(t)
    ensures n == m
  {
    Assoc("-", D.Render(n), r);
    Assoc("-", D.Render(m), t);
    Peel('-', D.Render(n) + r, '-', D.Render(m) + t);
    D.RenderDecodes(n, m, r, t);
  }

  lemma SameSign(n: int, m: int, r: string, t: string)
    requires PrintInt(n) + r == PrintInt(m) + t
    ensures n < 0 <==> m < 0
  {
    Head(PrintInt(n), r);
    Head(PrintInt(m), t);
  }

  lemma IntDecodes(n: int, m: int, r: string, t: string)
    requires PrintInt(n) + r == PrintInt(m) + t
    requires Delimited(r) && Delimited(t)
    ensures n == m
  {
    SameSign(n, m, r, t);
    if n < 0 {
      NegativeDecodes(-n, -m, r, t);
    } else {
      D.RenderDecodes(n, m, r, t);
    }
  }

  lemma {:induction false} PartsAreParts(sortKeys: bool, v: Json)
    requires v.Arr? || v.Obj?
    ensures forall i :: 0 <= i < |Parts(sortKeys, v)| ==> IsPart(Parts(sortKeys, v)[i])
  {
    forall i | 0 <= i < |Parts(sortKeys, v)|
      ensures IsPart(Parts(sortKeys, v)[i])
    {
      if v.Arr? {
        PrintLeads(sortKeys, v.items[i]);
      }
    }
  }

  lemma {:induction false} PartsArePrefixFree(sortKeys: bool, v: Json, w: Json)
    requires (v.Arr? && w.Arr?) || (v.Obj? && w.Obj?)
    ensures forall i, j :: 0 <= i < |Parts(sortKeys, v)| && 0 <= j < |Parts(sortKeys, w)| ==>
      PrefixFree(Parts(sortKeys, v)[i], Parts(sortKeys, w)[j])
    decreases v, 0
  {
    if v.Obj? {
      OrderedWithin(sortKeys, v);
    }
    forall i, j | 0 <= i < |Parts(sortKeys, v)| && 0 <= j < |Parts(sortKeys, w)|
      ensures PrefixFree(Parts(sortKeys, v)[i], Parts(sortKeys, w)[j])
    {
      if v.Arr? {
        PrintIsPrefixFree(sortKeys, v.items[i], w.items[j]);
      } else {
        var f, g := Ordered(sortKeys, v.fields)[i], Ordered(sortKeys, w.fields)[j];
        PrintIsPrefixFree(sortKeys, f.value, g.value);
        MemberIsPrefixFree(f.key, Print(sortKeys, f.value), g.key, Print(sortKeys, g.value));
      }
    }
  }

  lemma MemberIsPrefixFree(k: string, x: string, l: string, y: string)
    requires PrefixFree(x, y)
    ensures PrefixFree(PrintMember(k, x), PrintMember(l, y))
  {
    forall r, t | Delimited(r) && Delimited(t) && PrintMember(k, x) + r == PrintMember(l, y) + t
      ensures PrintMember(k, x) == PrintMember(l, y)
    {
      MemberDecodes(k, x, r, l, y, t);
    }
  }

  lemma MemberDecodes(k: string, x: string, r: string, l: string, y: string, t: string)
    requires PrintMember(k, x) + r == PrintMember(l, y) + t
    ensures k == l && x + r == y + t
  {
    Assoc(Quote(k), ":" + x, r);
    Assoc(Quote(l), ":" + y, t);
    Assoc(":", x, r);
    Assoc(":", y, t);
    QuoteDecodes(k, l, ":" + (x + r), ":" + (y + t));
    Peel(':', x + r, ':', y + t);
  }

  lemma {:induction false} SameKind(sortKeys: bool, v: Json, w: Json, r: string, t: string)
    requires Print(sortKeys, v) + r == Print(sortKeys, w) + t
    ensures exists c :: Leads(c, v) && Leads(c, w)
  {
    PrintLeads(sortKeys, v);
    PrintLeads(sortKeys, w);
    Head(Print(sortKeys, v), r);
    Head(Print(sortKeys, w), t);
  }

  lemma {:induction false} PrintIsPrefixFree(sortKeys: bool, v: Json, w: Json)
    ensures PrefixFree(Print(sortKeys, v), Print(sortKeys, w))
    decreases v, 1
  {
    if (v.Arr? && w.Arr?) || (v.Obj? && w.Obj?) {
      PartsArePrefixFree(sortKeys, v, w);
    }
    forall r, t | Delimited(r) && Delimited(t) && Print(sortKeys, v) + r == Print(sortKeys, w) + t
      ensures Print(sortKeys, v) == Print(sortKeys, w)
    {
      SameKind(sortKeys, v, w, r, t);
      match v
      case Num(n) => IntDecodes(n, w.n, r, t);
      case Str(s) => QuoteDecodes(s, w.s, r, t);
      case Arr(_) => PartsDecode(sortKeys, v, w, r, t);
      case Obj(_) => PartsDecode(sortKeys, v, w, r, t);
      case _ =>
    }
  }

  lemma {:induction false} PartsDecode(sortKeys: bool, v: Json, w: Json, r: string, t: string)
    requires (v.Arr? && w.Arr?) || (v.Obj? && w.Obj?)
    requires Print(sortKeys, v) + r == Print(sortKeys, w) + t
    requires forall i, j :: 0 <= i < |Parts(sortKeys, v)| && 0 <= j < |Parts(sortKeys, w)| ==>
      PrefixFree(Parts(sortKeys, v)[i], Parts(sortKeys, w)[j])
    ensures Parts(sortKeys, v) == Parts(sortKeys, w)
  {
    var vs, ws := Parts(sortKeys, v), Parts(sortKeys, w);
    var open, close := if v.Arr? then '[' else '{', if v.Arr? then ']' else '}';
    BracketEnd(open, Join(vs), close, r);
    BracketEnd(open, Join(ws), close, t);
    Peel(open, Join(vs) + ([close] + r), open, Join(ws) + ([close] + t));
    PartsAreParts(sortKeys, v);
    PartsAreParts(sortKeys, w);
    JoinDecodes(vs, ws, close, r, t);
  }

  lemma BracketEnd(open: char, body: string, close: char, r: string)
    ensures ([open] + (body + [close])) + r == [open] + (body + ([close] + r))
  {
    Assoc([open], body + [close], r);
    Assoc(body, [close], r);
  }

  // ----- the printed text determines the value

  lemma {:induction false} PrintDetermines(sortKeys: bool, v: Json, w: Json)
    requires Print(sortKeys, v) == Print(sortKeys, w)
    ensures Same(sortKeys, v, w)
    decreases v
  {
    var p, q := Print(sortKeys, v), Print(sortKeys, w);
    assert p + "" == p && q + "" == q;
    SameKind(sortKeys, v, w, "", "");
    match v
    case Num(n) => IntDecodes(n, w.n, "", "");
    case Str(s) => QuoteDecodes(s, w.s, "", "");
    case Arr(items) =>
      PartsArePrefixFree(sortKeys, v, w);
      PartsDecode(sortKeys, v, w, "", "");
      forall i | 0 <= i < |items|
        ensures Same(sortKeys, items[i], w.items[i])
      {
        assert Parts(sortKeys, v)[i] == Parts(sortKeys, w)[i];
        PrintDetermines(sortKeys, items[i], w.items[i]);
      }
    case Obj(fields) =>
      PartsArePrefixFree(sortKeys, v, w);
      PartsDecode(sortKeys, v, w, "", "");
      assert |Parts(sortKeys, v)| == |fields| && |Parts(sortKeys, w)| == |w.fields|;
      OrderedWithin(sortKeys, v);
      forall i | 0 <= i < |fields|
        ensures AgreeAt(sortKeys, v, w, i)
      {
        var f, g := Ordered(sortKeys, fields)[i], Ordered(sortKeys, w.fields)[i];
        assert Parts(sortKeys, v)[i] == Parts(sortKeys, w)[i];
        MemberDecodes(f.key, Print(sortKeys, f.value), "", g.key, Print(sortKeys, g.value), "");
        assert Print(sortKeys, f.value) + "" == Print(sortKeys, f.value);
        assert Print(sortKeys, g.value) + "" == Print(sortKeys, g.value);
        PrintDetermines(sortKeys, f.value, g.value);
      }
      AgreeingIsSame(sortKeys, v, w);
    case _ =>
  }

  // The i-th members, in printing order, have one key and the same value.
  ghost predicate AgreeAt(sortKeys: bool, v: Json, w: Json, i: nat)
    requires v.Obj? && w.Obj? && i < |v.fields| == |w.fields|
  {
    var f, g := Ordered(sortKeys, v.fields)[i], Ordered(sortKeys, w.fields)[i];
    f.key == g.key && Same(sortKeys, f.value, g.value)
  }

  lemma {:induction false} AgreeingIsSame(sortKeys: bool, v: Json, w: Json)
    requires v.Obj? && w.Obj? && |v.fields| == |w.fields|
    requires forall i :: 0 <= i < |v.fields| ==> AgreeAt(sortKeys, v, w, i)
    ensures Same(sortKeys, v, w)
  {
    forall i | 0 <= i < |v.fields|
      ensures MemberOf(sortKeys, v, i, w)
    {
      if sortKeys {
        var k := IndexIn(v.fields[i], v.fields, Ordered(true, v.fields));
        assert AgreeAt(sortKeys, v, w, k);
        var j := IndexIn(Ordered(true, w.fields)[k], Ordered(true, w.fields), w.fields);
      } else {
        assert AgreeAt(sortKeys, v, w, i);
      }
    }
  }

  // ----- equal values print equally

  lemma {:induction false} SamePrintsSame(sortKeys: bool, v: Json, w: Json)
    requires WellFormed(v) && WellFormed(w) && Same(sortKeys, v, w)
    ensures Print(sortKeys, v) == Print(sortKeys, w)
    decreases v
  {
    match v
    case Arr(items) =>
      forall i | 0 <= i < |items|
        ensures Parts(sortKeys, v)[i] == Parts(sortKeys, w)[i]
      {
        SamePrintsSame(sortKeys, items[i], w.items[i]);
      }
      assert Parts(sortKeys, v) == Parts(sortKeys, w);
    case Obj(fields) =>
      OrderedWithin(sortKeys, v);
      OrderedWithin(sortKeys, w);
      SameAgrees(sortKeys, v, w);
      forall i | 0 <= i < |fields|
        ensures Parts(sortKeys, v)[i] == Parts(sortKeys, w)[i]
      {
        assert AgreeAt(sortKeys, v, w, i);
        var f, g := Ordered(sortKeys, fields)[i], Ordered(sortKeys, w.fields)[i];
        SamePrintsSame(sortKeys, f.value, g.value);
      }
      assert Parts(sortKeys, v) == Parts(sortKeys, w);
    case _ =>
  }

  function Keys(fields: seq<Field>): (ks: seq<string>)
    ensures |ks| == |fields|
    ensures forall i :: 0 <= i < |ks| ==> ks[i] == fields[i].key
  {
    if fields == [] then [] else [fields[0].key] + Keys(fields[1..])
  }

  lemma FieldLeIsTotalPreorder()
    ensures TotalPreorder(FieldLe)
  {
    StringLeIsTotalPreorder();
    forall f, g
      ensures FieldLe(f, g) || FieldLe(g, f)
    {
      assert StringLe(f.key, g.key) || StringLe(g.key, f.key);
    }
    forall f, g, k | FieldLe(f, g) && FieldLe(g, k)
      ensures FieldLe(f, k)
    {
      assert StringLe(f.key, g.key) && StringLe(g.key, k.key);
    }
  }

  lemma {:induction false} DistinctKeysKept(fs: seq<Field>, vs: seq<Field>)
    requires multiset(fs) == multiset(vs)
    requires forall i, j :: 0 <= i < j < |fs| ==> fs[i].key != fs[j].key
    ensures NoDuplicates(Keys(vs))
  {
    MultisetKeepsNoDuplicates(fs, vs);
    forall i, j | 0 <= i < j < |vs|
      ensures Keys(vs)[i] != Keys(vs)[j]
    {
      var a := IndexIn(vs[i], vs, fs);
      var b := IndexIn(vs[j], vs, fs);
      assert a != b;
    }
  }

  lemma {:induction false} SortedFieldsHaveSortedKeys(vs: seq<Field>)
    requires Sorted(FieldLe, vs)
    ensures Sorted(StringLe, Keys(vs))
  {
    forall i, j | 0 <= i < j < |vs|
      ensures StringLe(Keys(vs)[i], Keys(vs)[j])
    {
      assert FieldLe(vs[i], vs[j]);
    }
  }

  lemma {:induction false} SameKeysOf(fs: seq<Field>, vs: seq<Field>, k: string)
    requires multiset(fs) == multiset(vs)
    ensures k in Keys(vs) <==> k in Keys(fs)
  {
    if k in Keys(vs) {
      KeyKept(k, vs, fs);
    }
    if k in Keys(fs) {
      KeyKept(k, fs, vs);
    }
  }

  /** The sorted keys of a well-formed object. */
  lemma {:induction false} SortedKeys(v: Json)
    requires v.Obj? && WellFormed(v)
    ensures NoDuplicates(Keys(Ordered(true, v.fields)))
    ensures Sorted(StringLe, Keys(Ordered(true, v.fields)))
    ensures forall k :: k in Keys(Ordered(true, v.fields)) <==> k in Keys(v.fields)
  {
    var fs, vs := v.fields, Ordered(true, v.fields);
    FieldLeIsTotalPreorder();
    SortSorts(FieldLe, fs);
    DistinctKeysKept(fs, vs);
    SortedFieldsHaveSortedKeys(vs);
    forall k
      ensures k in Keys(vs) <==> k in Keys(fs)
    {
      SameKeysOf(fs, vs, k);
    }
  }

  lemma {:induction false} KeyKept(k: string, fs: seq<Field>, gs: seq<Field>)
    requires multiset(fs) == multiset(gs) && k in Keys(fs)
    ensures k in Keys(gs)
  {
    var i :| 0 <= i < |fs| && Keys(fs)[i] == k;
    var j := IndexIn(fs[i], fs, gs);
    assert Keys(gs)[j] == k;
  }

  /** Objects that agree up to order list the same keys in the same places once sorted. */
  lemma {:induction false} SameKeysOnceSorted(v: Json, w: Json)
    requires v.Obj? && w.Obj? && WellFormed(v) && WellFormed(w) && Same(true, v, w)
    ensures Keys(Ordered(true, v.fields)) == Keys(Ordered(true, w.fields))
  {
    SortedKeys(v);
    SortedKeys(w);
    var vk, wk := Keys(Ordered(true, v.fields)), Keys(Ordered(true, w.fields));
    forall k | k in Keys(v.fields)
      ensures k in Keys(w.fields)
    {
      var i :| 0 <= i < |v.fields| && Keys(v.fields)[i] == k;
      assert MemberOf(true, v, i, w);
    }
    SameKeySets(vk, wk);
    forall x, y | x in vk && y in vk && StringLe(x, y) && StringLe(y, x)
      ensures x == y
    {
      StringLeTotal(x, y);
    }
    SortedIsUnique(StringLe, vk, wk);
  }

  lemma SameKeySets<T>(a: seq<T>, b: seq<T>)
    requires NoDuplicates(a) && NoDuplicates(b) && |a| == |b|
    requires forall x :: x in a ==> x in b
    ensures multiset(a) == multiset(b)
  {
    var s, t := set x | x in a, set x | x in b;
    NoDuplicatesIsMultisetOfSet(a);
    NoDuplicatesIsMultisetOfSet(b);
    assert |s| == |multiset(s)| == |a| && |t| == |multiset(t)| == |b|;
    assert s <= t && |t - s| == |t| - |s|;
    assert s == t;
  }

  lemma {:induction false} SameAgrees(sortKeys: bool, v: Json, w: Json)
    requires v.Obj? && w.Obj? && WellFormed(v) && WellFormed(w) && Same(sortKeys, v, w)
    ensures forall i :: 0 <= i < |v.fields| ==> AgreeAt(sortKeys, v, w, i)
  {
    if sortKeys {
      SameKeysOnceSorted(v, w);
    }
    forall i | 0 <= i < |v.fields|
      ensures AgreeAt(sortKeys, v, w, i)
    {
      if sortKeys {
        SameAgreesOnceSorted(v, w, i);
      } else {
        assert MemberOf(false, v, i, w);
      }
    }
  }

  lemma {:induction false} SameAgreesOnceSorted(v: Json, w: Json, i: nat)
    requires v.Obj? && w.Obj? && WellFormed(w) && Same(true, v, w) && i < |v.fields|
    requires Keys(Ordered(true, v.fields)) == Keys(Ordered(true, w.fields))
    ensures AgreeAt(true, v, w, i)
  {
    var f, g := Ordered(true, v.fields)[i], Ordered(true, w.fields)[i];
    assert f.key == Keys(Ordered(true, v.fields))[i] == Keys(Ordered(true, w.fields))[i] == g.key;
    var a := IndexIn(f, Ordered(true, v.fields), v.fields);
    var b := IndexIn(g, Ordered(true, w.fields), w.fields);
    assert MemberOf(true, v, a, w);
    var j :| 0 <= j < |w.fields| && v.fields[a].key == w.fields[j].key
      && Same(true, v.fields[a].value, w.fields[j].value);
    assert j == b;
  }

  // ----- spelled out

  /** The two-character escapes, the six-character ones, and every other character as it is. */
  lemma EscapeSpelledOut(c: char)
    ensures c == '\"' ==> EscapeChar(c) == "\\\""
    ensures c == '\\' ==> EscapeChar(c) == "\\\\"
    ensures c as int == 8 ==> EscapeChar(c) == "\\b"
    ensures c as int == 9 ==> EscapeChar(c) == "\\t"
    ensures c as int == 10 ==> EscapeChar(c) == "\\n"
    ensures c as int == 12 ==> EscapeChar(c) == "\\f"
    ensures c as int == 13 ==> EscapeChar(c) == "\\r"
    ensures c as int < 32 && c as int !in {8, 9, 10, 12, 13} ==>
      EscapeChar(c) == "\\u00" + ["0123456789abcdef"[c as int / 16], "0123456789abcdef"[c as int % 16]]
    ensures c as int >= 32 && c != '\"' && c != '\\' ==> EscapeChar(c) == [c]
  {
  }

  predicate IsPlain(s: string) {
    forall i :: 0 <= i < |s| ==> s[i] as int >= 32 && s[i] != '\"' && s[i] != '\\'
  }

  lemma {:induction false} PlainIsKept(s: string)
    requires IsPlain(s)
    ensures Encode(EscapeChar, s) == s
  {
    if s != "" {
      PlainIsKept(s[1..]);
      EscapeSpelledOut(s[0]);
      assert s == [s[0]] + s[1..];
    }
  }

  /** Quotes around the escapes of the characters in order; a plain text stays as it is. */
  lemma {:induction false} QuoteSpelledOut(s: string, u: string)
    ensures Quote("") == "\"\""
    ensures Quote(s + u) == Quote(s)[..|Quote(s)| - 1] + Quote(u)[1..]
    ensures |s| == 1 ==> Quote(s) == "\"" + EscapeChar(s[0]) + "\""
    ensures IsPlain(s) ==> Quote(s) == "\"" + s + "\""
  {
    EncodeOfParts(EscapeChar, s, u);
    QuoteAssoc(s);
    QuoteAssoc(u);
    QuoteAssoc(s + u);
    var a, b := Encode(EscapeChar, s), Encode(EscapeChar, u);
    assert Quote(s)[..|Quote(s)| - 1] == "\"" + a && Quote(u)[1..] == b + "\"";
    Assoc("\"", a, b + "\"");
    Assoc(a, b, "\"");
    if |s| == 1 {
      assert s[1..] == "" && EscapeChar(s[0]) + "" == EscapeChar(s[0]);
    }
    if IsPlain(s) {
      PlainIsKept(s);
    }
  }

  lemma {:induction false} QuoteAssoc(s: string)
    ensures Quote(s) == "\"" + Encode(EscapeChar, s) + "\""
  {
    Assoc("\"", Encode(EscapeChar, s), "\"");
  }

  /** Literals, numbers and quoted strings. */
  lemma PrintSpelledOut(sortKeys: bool, b: bool, n: int, s: string)
    ensures Print(sortKeys, Null) == "null" && Print(sortKeys, Bool(b)) == (if b then "true" else "false")
    ensures Print(sortKeys, Num(n)) == if n < 0 then "-" + D.Render(-n) else D.Render(n)
    ensures Print(sortKeys, Str(s)) == Quote(s)
  {
  }

  /** The elements of an array between commas. */
  lemma {:induction false} ArraySpelledOut(sortKeys: bool, v: Json, rest: seq<Json>)
    ensures Print(sortKeys, Arr([])) == "[]" && Print(sortKeys, Arr([v])) == "[" + Print(sortKeys, v) + "]"
    ensures rest != [] ==>
      Print(sortKeys, Arr([v] + rest)) == "[" + Print(sortKeys, v) + "," + Print(sortKeys, Arr(rest))[1..]
  {
    var text := Print(sortKeys, v);
    assert Parts(sortKeys, Arr([])) == [] && Parts(sortKeys, Arr([v])) == [text];
    Assoc("[", text, "]");
    if rest != [] {
      var ps := Parts(sortKeys, Arr(rest));
      assert Parts(sortKeys, Arr([v] + rest)) == [text] + ps;
      ListSpelledOut("[", text, ps, "]");
    }
  }

  lemma {:induction false} ListSpelledOut(open: string, p: string, ps: seq<string>, close: string)
    requires ps != [] && |open| == 1
    ensures open + (Join([p] + ps) + close) == open + p + "," + (open + (Join(ps) + close))[1..]
  {
    JoinCons(p, ps);
    assert (open + (Join(ps) + close))[1..] == Join(ps) + close;
    Assoc(p + ",", Join(ps), close);
    Assoc(open, p + ",", Join(ps) + close);
    Assoc(open, p, ",");
  }

  /** Objects with keys in insertion order. */
  lemma StringifySpelledOut(f: Field, rest: seq<Field>)
    ensures Stringify(Obj([])) == "{}"
    ensures Stringify(Obj([f])) == "{" + Quote(f.key) + ":" + Stringify(f.value) + "}"
    ensures rest != [] ==>
      Stringify(Obj([f] + rest)) == "{" + Quote(f.key) + ":" + Stringify(f.value) + "," + Stringify(Obj(rest))[1..]
  {
    ObjectInOrder(false, [f], f, []);
    assert Parts(false, Obj([])) == [];
    if rest != [] {
      ObjectInOrder(false, [f] + rest, f, rest);
    }
  }

  lemma MemberBehind(open: string, key: string, text: string)
    ensures open + PrintMember(key, text) == open + Quote(key) + ":" + text
  {
    Assoc(Quote(key), ":", text);
    Assoc(open, Quote(key) + ":", text);
    Assoc(open, Quote(key), ":");
  }

  lemma {:induction false} PartsInOrder(sortKeys: bool, fields: seq<Field>, f: Field, rest: seq<Field>)
    requires Ordered(sortKeys, fields) == [f] + rest && Ordered(sortKeys, rest) == rest
    ensures Parts(sortKeys, Obj(fields))
            == [PrintMember(f.key, Print(sortKeys, f.value))] + Parts(sortKeys, Obj(rest))
  {
    var all, ps := Parts(sortKeys, Obj(fields)), Parts(sortKeys, Obj(rest));
    forall i | 0 <= i < |ps|
      ensures all[i + 1] == ps[i]
    {
      assert ([f] + rest)[i + 1] == rest[i];
    }
  }

  lemma {:induction false} ObjectInOrder(sortKeys: bool, fields: seq<Field>, f: Field, rest: seq<Field>)
    requires Ordered(sortKeys, fields) == [f] + rest && Ordered(sortKeys, rest) == rest
    ensures rest == [] ==> Print(sortKeys, Obj(fields)) == "{" + Quote(f.key) + ":" + Print(sortKeys, f.value) + "}"
    ensures rest != [] ==>
      Print(sortKeys, Obj(fields)) ==
        "{" + Quote(f.key) + ":" + Print(sortKeys, f.value) + "," + Print(sortKeys, Obj(rest))[1..]
  {
    var text := Print(sortKeys, f.value);
    var m, ps := PrintMember(f.key, text), Parts(sortKeys, Obj(rest));
    PartsInOrder(sortKeys, fields, f, rest);
    MemberBehind("{", f.key, text);
    if rest == [] {
      assert [m] + ps == [m];
      Assoc("{", m, "}");
    } else {
      ListSpelledOut("{", m, ps, "}");
    }
  }

  /** The members in ascending order of their keys. */
  ghost predicate InKeyOrder(gs: seq<Field>, fields: seq<Field>) {
    && multiset(gs) == multiset(fields)
    && forall i, j :: 0 <= i < j < |gs| ==> StringLe(gs[i].key, gs[j].key) && gs[i].key != gs[j].key
  }

  predicate Before(k: string, l: string) {
    StringLe(k, l) && k != l
  }

  lemma {:induction false} BeforeChains(gs: seq<Field>, i: nat, j: nat)
    requires i < j < |gs| && forall k :: 0 < k < |gs| ==> Before(gs[k - 1].key, gs[k].key)
    ensures Before(gs[i].key, gs[j].key)
    decreases j
  {
    assert Before(gs[j - 1].key, gs[j].key);
    if i < j - 1 {
      BeforeChains(gs, i, j - 1);
      StringLeTransitive(gs[i].key, gs[j - 1].key, gs[j].key);
      StringLeTotal(gs[j - 1].key, gs[j].key);
    }
  }

  lemma {:induction false} NeighboursSuffice(gs: seq<Field>, fields: seq<Field>)
    requires multiset(gs) == multiset(fields)
    requires forall k :: 0 < k < |gs| ==> Before(gs[k - 1].key, gs[k].key)
    ensures InKeyOrder(gs, fields)
  {
    forall i, j | 0 <= i < j < |gs|
      ensures Before(gs[i].key, gs[j].key)
    {
      BeforeChains(gs, i, j);
    }
  }

  lemma {:induction false} SortedFieldsAre(fields: seq<Field>, gs: seq<Field>)
    requires InKeyOrder(gs, fields)
    ensures Ordered(true, fields) == gs
  {
    FieldLeIsTotalPreorder();
    SortSorts(FieldLe, fields);
    forall x, y | x in gs && y in gs && FieldLe(x, y) && FieldLe(y, x)
      ensures x == y
    {
      StringLeTotal(x.key, y.key);
    }
    SortedIsUnique(FieldLe, gs, Ordered(true, fields));
  }

  /** Objects with sorted keys: whatever their insertion order, the members come in ascending order of their keys. */
  lemma {:induction false} StableSpelledOut(fields: seq<Field>, f: Field, rest: seq<Field>)
    requires InKeyOrder([f] + rest, fields)
    ensures Stable(Obj([])) == "{}"
    ensures rest == [] ==> Stable(Obj(fields)) == "{" + Quote(f.key) + ":" + Stable(f.value) + "}"
    ensures rest != [] ==>
      Stable(Obj(fields)) == "{" + Quote(f.key) + ":" + Stable(f.value) + "," + Stable(Obj(rest))[1..]
  {
    assert Parts(true, Obj([])) == [];
    SortedFieldsAre(fields, [f] + rest);
    assert forall i, j :: 0 <= i < j < |rest| ==> rest[i] == ([f] + rest)[i + 1] && rest[j] == ([f] + rest)[j + 1];
    SortedFieldsAre(rest, rest);
    ObjectInOrder(true, fields, f, rest);
  }

  /** The last member of an object with plain keys, and a member before others. */
  lemma {:induction false} StableMember(fields: seq<Field>, f: Field, rest: seq<Field>, tail: string)
    requires InKeyOrder([f] + rest, fields) && IsPlain(f.key)
    ensures rest == [] ==> Stable(Obj(fields)) == "{" + ("\"" + f.key + "\":" + Stable(f.value) + "}")
    ensures rest != [] && Stable(Obj(rest)) == "{" + tail ==>
      Stable(Obj(fields)) == "{" + ("\"" + f.key + "\":" + Stable(f.value) + "," + tail)
  {
    StableSpelledOut(fields, f, rest);
    QuoteSpelledOut(f.key, "");
    ColonBehind(f.key);
    var head := "\"" + f.key + "\":";
    Assoc("{", head, Stable(f.value));
    Assoc("{", head + Stable(f.value), "}");
    Assoc("{", head + Stable(f.value), ",");
    Assoc("{", head + Stable(f.value) + ",", tail);
    assert ("{" + tail)[1..] == tail;
  }

  lemma ColonBehind(key: string)
    ensures "{" + ("\"" + key + "\"") + ":" == "{" + ("\"" + key + "\":")
  {
    Assoc("{", "\"" + key + "\"", ":");
    Assoc("\"" + key, "\"", ":");
    assert "\"" + ":" == "\":";
  }

  lemma {:induction false} SuffixInOrder(gs: seq<Field>, k: nat)
    requires InKeyOrder(gs, gs) && k <= |gs|
    ensures InKeyOrder(gs[k..], gs[k..])
  {
  }

  // `lead` is the quoted key with its colon.
  predicate Labels(lead: string, key: string) {
    IsPlain(key) && lead == "\"" + key + "\":"
  }

  lemma {:induction false} LastMember(gs: seq<Field>, lead: string)
    requires InKeyOrder(gs, gs) && gs != [] && Labels(lead, gs[|gs| - 1].key)
    ensures Stable(Obj(gs[|gs| - 1..])) == "{" + (lead + Stable(gs[|gs| - 1].value) + "}")
  {
    SuffixInOrder(gs, |gs| - 1);
    assert gs[|gs| - 1..] == [gs[|gs| - 1]] + [];
    StableMember(gs[|gs| - 1..], gs[|gs| - 1], [], "");
  }

  lemma {:induction false} MemberBefore(gs: seq<Field>, k: nat, lead: string, tail: string)
    requires InKeyOrder(gs, gs) && k + 1 < |gs| && Labels(lead, gs[k].key)
    requires Stable(Obj(gs[k + 1..])) == "{" + tail
    ensures Stable(Obj(gs[k..])) == "{" + (lead + Stable(gs[k].value) + "," + tail)
  {
    SuffixInOrder(gs, k);
    assert gs[k..] == [gs[k]] + gs[k + 1..];
    StableMember(gs[k..], gs[k], gs[k + 1..], tail);
  }

  lemma {:induction false} TwoMembers(gs: seq<Field>, l0: string, l1: string, first: string, second: string)
    requires |gs| == 2 && InKeyOrder(gs, gs) && Labels(l0, gs[0].key) && Labels(l1, gs[1].key)
    requires Stable(gs[0].value) == first && Stable(gs[1].value) == second
    ensures Stable(Obj(gs)) == "{" + (l0 + first + "," + (l1 + second + "}"))
  {
    LastMember(gs, l1);
    MemberBefore(gs, 0, l0, l1 + second + "}");
    assert gs[0..] == gs;
  }

  lemma {:induction false} ThreeMembers(gs: seq<Field>, l0: string, l1: string, l2: string,
                                        q0: string, q1: string, q2: string)
    requires |gs| == 3 && InKeyOrder(gs, gs)
    requires Labels(l0, gs[0].key) && Labels(l1, gs[1].key) && Labels(l2, gs[2].key)
    requires Stable(gs[0].value) == q0 && Stable(gs[1].value) == q1 && Stable(gs[2].value) == q2
    ensures Stable(Obj(gs)) == "{" + (l0 + q0 + "," + (l1 + q1 + "," + (l2 + q2 + "}")))
  {
    LastMember(gs, l2);
    MemberBefore(gs, 1, l1, l2 + q2 + "}");
    MemberBefore(gs, 0, l0, l1 + q1 + "," + (l2 + q2 + "}"));
    assert gs[0..] == gs;
  }

  // The same for keys in insertion order.
  lemma {:induction false} FieldText(fs: seq<Field>, k: nat, lead: string, value: string, tail: string)
    requires k < |fs| && Labels(lead, fs[k].key) && Stringify(fs[k].value) == value
    requires k + 1 < |fs| ==> Stringify(Obj(fs[k + 1..])) == "{" + tail
    ensures k + 1 < |fs| ==> Stringify(Obj(fs[k..])) == "{" + (lead + value + "," + tail)
    ensures k + 1 == |fs| ==> Stringify(Obj(fs[k..])) == "{" + (lead + value + "}")
  {
    assert fs[k..] == [fs[k]] + fs[k + 1..];
    StringifySpelledOut(fs[k], fs[k + 1..]);
    QuoteSpelledOut(fs[k].key, "");
    ColonBehind(fs[k].key);
    Assoc("{", lead, value);
    Assoc("{", lead + value, "}");
    Assoc("{", lead + value, ",");
    Assoc("{", lead + value + ",", tail);
    assert ("{" + tail)[1..] == tail;
    assert fs[k + 1..] == [] ==> fs[k..] == [fs[k]];
  }

  lemma {:induction false} PlainStr(s: string, quoted: string)
    requires IsPlain(s) && quoted == "\"" + s + "\""
    ensures Stable(Str(s)) == quoted
  {
    QuoteSpelledOut(s, "");
  }

  lemma {:induction false} SameOnceSorted(fields: seq<Field>, gs: seq<Field>)
    requires InKeyOrder(gs, fields)
    ensures InKeyOrder(gs, gs) && Stable(Obj(fields)) == Stable(Obj(gs))
  {
    SortedFieldsAre(fields, gs);
    SortedFieldsAre(gs, gs);
    assert Parts(true, Obj(fields)) == Parts(true, Obj(gs));
  }

  // ----- the two main statements

  /** The canonical text of a value determines it up to the order of object members, and only that. */
  lemma {:induction false} StableIsCanonical(v: Json, w: Json)
    requires WellFormed(v) && WellFormed(w)
    ensures Stable(v) == Stable(w) <==> Same(true, v, w)
  {
    if Stable(v) == Stable(w) {
      PrintDetermines(true, v, w);
    }
    if Same(true, v, w) {
      SamePrintsSame(true, v, w);
    }
  }

  /** `JSON.stringify` is injective: there the order of members counts. */
  lemma StringifyIsInjective(v: Json, w: Json)
    requires Stringify(v) == Stringify(w)
    ensures v == w
  {
    PrintDetermines(false, v, w);
    SameInOrderIsEqual(v, w);
  }

  lemma {:induction false} SameInOrderIsEqual(v: Json, w: Json)
    requires Same(false, v, w)
    ensures v == w
  {
    match v
    case Arr(items) =>
      forall i | 0 <= i < |items|
        ensures items[i] == w.items[i]
      {
        SameInOrderIsEqual(items[i], w.items[i]);
      }
    case Obj(fields) =>
      forall i | 0 <= i < |fields|
        ensures fields[i] == w.fields[i]
      {
        assert MemberOf(false, v, i, w);
        SameInOrderIsEqual(fields[i].value, w.fields[i].value);
      }
    case _ =>
  }
}
