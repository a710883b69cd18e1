// The printer of uiot/shadow/src/shadow_client_json.c against the scanner: what is printed is found.
module JsonPrint {
  import opened JsonScan
  import opened Optional

  /** What can be printed: a string, an integer, null, or an object that is given as text. */
  datatype Value = Str(text: string) | Int(n: int) | Null | Obj(text: string)

  datatype Property = Property(key: string, value: Value)

  /** The decimal digits of a number. */
  function Digits(n: nat): (s: string)
    ensures |s| >= 1 && forall c :: c in s ==> IsDigit(c)
  {
    if n < 10 then [('0' as int + n) as char] else Digits(n / 10) + [('0' as int + n % 10) as char]
  }

  function Decimal(n: int): (s: string)
    ensures |s| >= 1 && (s[0] == '-' || IsDigit(s[0])) && forall i :: 1 <= i < |s| ==> IsDigit(s[i])
  {
    if n < 0 then "-" + Digits(-n) else Digits(n)
  }

  /** The number that decimal digits stand for. */
  function Read(s: string): nat
    requires forall c :: c in s ==> IsDigit(c)
  {
    if s == "" then 0
    else
      var last := s[|s| - 1];
      assert IsDigit(last);
      10 * Read(s[..|s| - 1]) + (last as int - '0' as int)
  }

  /** A printed number reads back, and has no superfluous zero in front. */
  lemma {:induction false} DigitsReadBack(n: nat)
    ensures Read(Digits(n)) == n && (n > 0 ==> Digits(n)[0] != '0') && (n == 0 ==> Digits(n) == "0")
  {
    if n < 10 {
      assert Digits(n)[..0] == "";
    } else {
      DigitsReadBack(n / 10);
      var s := Digits(n);
      assert s[..|s| - 1] == Digits(n / 10);
    }
  }

  /** A negative one has a minus sign in front. */
  lemma DecimalReadsBack(n: int)
    ensures var s := Decimal(n);
            if n < 0 then s[0] == '-' && (forall c :: c in s[1..] ==> IsDigit(c)) && Read(s[1..]) == -n
            else (forall c :: c in s ==> IsDigit(c)) && Read(s) == n
  {
    DigitsReadBack(if n < 0 then -n else n);
    if n < 0 {
      assert Decimal(n)[1..] == Digits(-n);
    }
  }

  function ValueText(v: Value): string {
    match v
    case Str(text) => "\"" + text + "\""
    case Int(n) => Decimal(n)
    case Null => "null"
    case Obj(text) => text
  }

  /** The text of a value as the scanner returns it, with its kind. */
  function Token(v: Value): (string, Kind) {
    match v
    case Str(text) => (text, JsString)
    case Int(n) => (Decimal(n), JsNumber)
    case Null => ("null", JsNull)
    case Obj(text) => (text, JsObject)
  }

  function Field(p: Property): string {
    "\"" + p.key + "\":" + ValueText(p.value)
  }

  /** The depth that braces lead to from a given one; none if they would close too much. */
  function Walk(s: string, depth: nat): Option<nat> {
    if s == [] then Some(depth)
    else if s[0] == '}' then if depth == 0 then None else Walk(s[1..], depth - 1)
    else Walk(s[1..], if s[0] == '{' then depth + 1 else depth)
  }

  /** Every brace is closed, and none too early. */
  predicate Level(s: string) { Walk(s, 0) == Some(0) }

  predicate IsObject(s: string) {
    |s| >= 2 && s[0] == '{' && s[|s| - 1] == '}' && Level(s[1..|s| - 1])
  }

  predicate Printable(p: Property) {
    && '"' !in p.key
    && match p.value
       case Str(text) => '"' !in text
       case Obj(text) => IsObject(text)
       case _ => true
  }

  predicate AllPrintable(ps: seq<Property>) { forall p :: p in ps ==> Printable(p) }

  lemma PrintableParts(ps: seq<Property>)
    requires AllPrintable(ps) && ps != []
    ensures Printable(ps[0]) && AllPrintable(ps[1..])
  {
  }

  /** Keys and strings whose braces match, so that an object around them can be scanned. */
  predicate Nestable(p: Property) {
    Printable(p) && Level(p.key) && (p.value.Str? ==> Level(p.value.text))
  }

  function Fields(ps: seq<Property>): string {
    if ps == [] then "" else if |ps| == 1 then Field(ps[0]) else Field(ps[0]) + "," + Fields(ps[1..])
  }

  /** An object with the given properties. */
  function ObjectText(ps: seq<Property>): string { "{" + Fields(ps) + "}" }

  /** What the iteration reports: the pairs with a key and a value that are not empty. */
  function Reported(ps: seq<Property>): seq<Pair> {
    if ps == [] then [] else ReportedOne(ps[0]) + Reported(ps[1..])
  }

  function ReportedOne(p: Property): seq<Pair> {
    var (text, kind) := Token(p.value);
    if p.key != "" && text != "" then [Pair(p.key, text, kind)] else []
  }

  lemma {:induction false} WalkConcat(a: string, b: string, depth: nat)
    ensures Walk(a + b, depth) == if Walk(a, depth).None? then None else Walk(b, Walk(a, depth).value)
  {
    if a == [] {
      assert a + b == b;
    } else {
      assert (a + b)[1..] == a[1..] + b;
      if a[0] == '}' {
        if depth > 0 {
          WalkConcat(a[1..], b, depth - 1);
        }
      } else {
        WalkConcat(a[1..], b, if a[0] == '{' then depth + 1 else depth);
      }
    }
  }

  lemma {:induction false} WalkDeeper(s: string, depth: nat, more: nat)
    requires Walk(s, depth).Some?
    ensures Walk(s, depth + more) == Some(Walk(s, depth).value + more)
  {
    if s != [] {
      if s[0] == '}' {
        WalkDeeper(s[1..], depth - 1, more);
      } else {
        WalkDeeper(s[1..], if s[0] == '{' then depth + 1 else depth, more);
      }
    }
  }

  lemma LevelConcat(a: string, b: string)
    requires Level(a) && Level(b)
    ensures Level(a + b)
  {
    WalkConcat(a, b, 0);
  }

  lemma {:induction false} NoBraces(s: string)
    requires '{' !in s && '}' !in s
    ensures Level(s)
  {
    if s != [] {
      assert s[0] in s && forall c :: c in s[1..] ==> c in s;
      NoBraces(s[1..]);
    }
  }

  lemma ObjectIsLevel(s: string)
    requires IsObject(s)
    ensures Level(s)
  {
    var inner := s[1..|s| - 1];
    assert s == "{" + inner + "}";
    WalkDeeper(inner, 0, 1);
    WalkConcat("{", inner, 0);
    WalkConcat("{" + inner, "}", 0);
    assert Walk("{", 0) == Walk("", 1) == Some(1);
    assert Walk("}", 1) == Walk("", 0) == Some(0);
  }

  lemma FieldIsLevel(p: Property)
    requires Nestable(p)
    ensures Level(Field(p))
  {
    var v := ValueText(p.value);
    NoBraces("\"");
    NoBraces("\":");
    match p.value {
      case Str(text) =>
        LevelConcat("\"", text);
        LevelConcat("\"" + text, "\"");
      case Int(n) => NoBraces(v);
      case Null => NoBraces(v);
      case Obj(text) => ObjectIsLevel(text);
    }
    LevelConcat("\"", p.key);
    LevelConcat("\"" + p.key, "\":");
    LevelConcat("\"" + p.key + "\":", v);
  }

  /** A printed object is bracket-balanced, and can be the value of a property in turn. */
  lemma {:induction false} FieldsAreLevel(ps: seq<Property>)
    requires forall p :: p in ps ==> Nestable(p)
    ensures Level(Fields(ps)) && IsObject(ObjectText(ps))
  {
    if ps == [] {
    } else {
      FieldIsLevel(ps[0]);
      if |ps| > 1 {
        FieldsAreLevel(ps[1..]);
        NoBraces(",");
        LevelConcat(Field(ps[0]), ",");
        LevelConcat(Field(ps[0]) + ",", Fields(ps[1..]));
      }
    }
    var o := ObjectText(ps);
    assert o[1..|o| - 1] == Fields(ps);
  }

  // ----- scanning what has been printed -----

  lemma {:induction false} CloseWalk(s: string, from: nat, depth: nat, t: string)
    requires from + |t| <= |s| && s[from..from + |t|] == t && Walk(t, depth).Some?
    ensures CloseAt(s, from, depth, '{', '}') == CloseAt(s, from + |t|, Walk(t, depth).value, '{', '}')
    decreases |t|
  {
    if t != [] {
      assert s[from] == t[0] && s[from + 1..from + |t|] == t[1..];
      CloseWalk(s, from + 1, if t[0] == '}' then depth - 1 else if t[0] == '{' then depth + 1 else depth, t[1..]);
    }
  }

  lemma {:induction false} NumberEnds(s: string, from: nat, end: nat)
    requires from <= end < |s| && !(IsDigit(s[end]) || s[end] == '.') && forall i :: from <= i < end ==> IsDigit(s[i])
    ensures NumberEnd(s, from) == end
    decreases end - from
  {
    if from < end {
      NumberEnds(s, from + 1, end);
    }
  }

  lemma Placed(s: string, from: nat, t: string)
    requires from + |t| <= |s| && s[from..from + |t|] == t
    ensures forall i :: 0 <= i < |t| ==> t[i] == s[from + i]
  {
    assert forall i :: 0 <= i < |t| ==> s[from..from + |t|][i] == t[i];
  }

  lemma PartPlaced(s: string, from: nat, t: string, i: nat, j: nat)
    requires from + |t| <= |s| && s[from..from + |t|] == t && i <= j <= |t|
    ensures s[from + i..from + j] == t[i..j]
  {
    forall k | 0 <= k < j - i
      ensures s[from + i..from + j][k] == t[i..j][k]
    {
      assert s[from..from + |t|][i + k] == s[from + (i + k)];
    }
  }

  lemma SplitAt(s: string, at: nat, a: string, b: string)
    requires at <= |s| && s[at..] == a + b
    ensures at + |a| <= |s| && s[at..at + |a|] == a && s[at + |a|..] == b && at + |a| + |b| == |s|
  {
    assert s[at..at + |a|] == s[at..][..|a|];
    assert s[at + |a|..] == s[at..][|a|..];
  }

  /** The scanner finds the extent of a printed value, of each kind. */
  ghost predicate Found(s: string, v: nat, value: Value, after: nat) {
    var (text, kind) := Token(value); var at := if kind == JsString then v + 1 else v;
    && v < |s| && KindOf(s[v]) == Some(kind) && at + |text| <= |s| && ValueLen(s, at, kind) == |text| &&
       s[at..at + |text|] == text
    && after == at + |text| + (if kind == JsString then 1 else 0)
  }

  lemma StringFound(s: string, v: nat, text: string, after: nat)
    requires after == v + |text| + 2 < |s| && s[v..after] == "\"" + text + "\"" && '"' !in text
    ensures Found(s, v, Str(text), after)
  {
    var t := "\"" + text + "\"";
    assert s[v] == s[v..after][0] == '"' && s[after - 1] == s[v..after][|t| - 1] == '"';
    PartPlaced(s, v, t, 1, |t| - 1);
    assert t[1..|t| - 1] == text;
    FindIs(s, v + 1, '"', after - 1);
  }

  lemma NumberFound(s: string, v: nat, n: int, after: nat)
    requires after == v + |Decimal(n)| < |s| && s[v..after] == Decimal(n) && s[after] in [',', '}']
    ensures Found(s, v, Int(n), after)
  {
    hide Decimal;
    var t := Decimal(n);
    Placed(s, v, t);
    assert s[v] == t[0];
    forall i | v + 1 <= i < after
      ensures IsDigit(s[i])
    {
      assert s[i] == t[i - v];
    }
    NumberEnds(s, v + 1, after);
  }

  lemma NullFound(s: string, v: nat, after: nat)
    requires after == v + 4 < |s| && s[v..after] == "null"
    ensures Found(s, v, Null, after)
  {
    assert s[v] == s[v..after][0];
  }

  lemma ObjectFound(s: string, v: nat, text: string, after: nat)
    requires after == v + |text| < |s| && s[v..after] == text && IsObject(text)
    ensures Found(s, v, Obj(text), after)
  {
    var inner := text[1..|text| - 1];
    assert s[v] == s[v..after][0] == '{' && s[after - 1] == s[v..after][|text| - 1] == '}';
    PartPlaced(s, v, text, 1, |text| - 1);
    CloseWalk(s, v + 1, 0, inner);
  }

  lemma ValueFound(s: string, v: nat, value: Value, after: nat)
    requires after == v + |ValueText(value)| < |s| && s[v..after] == ValueText(value) && s[after] in [',', '}']
    requires value.Str? ==> '"' !in value.text
    requires value.Obj? ==> IsObject(value.text)
    ensures Found(s, v, value, after)
  {
    hide Found;
    match value
    case Str(text) => StringFound(s, v, text, after);
    case Int(n) => NumberFound(s, v, n, after);
    case Null => NullFound(s, v, after);
    case Obj(text) => ObjectFound(s, v, text, after);
  }

  /** Where the parts of a field stand. */
  lemma FieldPlaces(s: string, at: nat, p: Property)
    requires at + |Field(p)| <= |s| && s[at..at + |Field(p)|] == Field(p)
    ensures var e := at + 1 + |p.key|;
            && at + |Field(p)| == e + 2 + |ValueText(p.value)| && s[at] == '"' && s[at + 1..e] == p.key &&
               s[e] == '"' && s[e + 1] == ':'
            && s[e + 2..at + |Field(p)|] == ValueText(p.value)
  {
    hide ValueText;
    var f, n := Field(p), |p.key|;
    Placed(s, at, f);
    assert f[0] == '"' && f[1..1 + n] == p.key && f[1 + n] == '"' && f[2 + n] == ':' &&
      f[3 + n..] == ValueText(p.value);
    PartPlaced(s, at, f, 1, 1 + n);
    PartPlaced(s, at, f, 3 + n, |f|);
  }

  /** One step of the iteration from the comma or brace before a printed field. */
  lemma FieldFound(s: string, pos: nat, p: Property)
    requires Printable(p) && pos + 1 + |Field(p)| < |s| && s[pos] in ['{', ','] && s[pos + 1 + |Field(p)|] in [',', '}']
    requires s[pos + 1..pos + 1 + |Field(p)|] == Field(p)
    ensures var (text, kind) := Token(p.value); var r := NextObject(s, pos);
            && r.Some? && r.value.next == pos + 1 + |Field(p)| && r.value.keyLen == |p.key| && r.value.valLen == |text|
            && PairOf(s, r.value) == Pair(p.key, text, kind)
  {
    hide ValueText, Token, ValueLen, IsObject, KindOf, Field, NextObject, Find;
    var k := pos + 2;
    var e, after := k + |p.key|, pos + 1 + |Field(p)|;
    FieldPlaces(s, pos + 1, p);
    FindIs(s, pos, '"', pos + 1);
    FindIs(s, k, '"', e);
    FindIs(s, e, ':', e + 1);
    ValueFound(s, e + 2, p.value, after);
    NextIs(s, pos, e, Token(p.value).1);
  }

  /** NextObject, from the places of the marks. */
  lemma NextIs(s: string, pos: nat, e: nat, kind: Kind)
    requires pos + 2 <= e && e + 2 < |s| && Find(s, pos, '"') == pos + 1 && Find(s, pos + 2, '"') == e &&
             Find(s, e, ':') == e + 1
    requires s[e + 1] == ':' && KindOf(s[e + 2]) == Some(kind)
    ensures NextObject(s, pos) == ValueAt(s, pos + 2, e - pos - 2, e + 2, kind)
  {
    hide KindOf, ValueLen, Find, ValueAt;
    ColonStartsNothing();
    assert FindValue(s, e + 1) == e + 2;
  }

  lemma ColonStartsNothing()
    ensures KindOf(':').None?
  {
  }

  /** What follows the first field. */
  function Rest(ps: seq<Property>): string
    requires ps != []
  {
    if |ps| == 1 then "}" else "," + Fields(ps[1..]) + "}"
  }

  /** Behind the first field: the brace, or a comma and the other fields. */
  predicate RestStands(s: string, next: nat, ps: seq<Property>)
    requires ps != []
  {
    next < |s| &&
    if |ps| == 1 then next + 1 == |s| && s[next] == '}' else s[next] == ',' && s[next + 1..] == Fields(ps[1..]) + "}"
  }

  lemma FieldsSplit(s: string, at: nat, ps: seq<Property>)
    requires ps != [] && at <= |s| && s[at..] == Fields(ps) + "}"
    ensures var next := at + |Field(ps[0])|;
            next <= |s| && s[at..next] == Field(ps[0]) && RestStands(s, next, ps)
  {
    var next := at + |Field(ps[0])|;
    FieldsThenRest(ps);
    hide *;
    SplitAt(s, at, Field(ps[0]), Rest(ps));
    RestSplit(s, next, ps);
  }

  lemma RestSplit(s: string, next: nat, ps: seq<Property>)
    requires ps != [] && next <= |s| && s[next..] == Rest(ps)
    ensures RestStands(s, next, ps)
  {
    hide Fields;
    assert s[next] == s[next..][0] == Rest(ps)[0];
    if |ps| > 1 {
      assert Rest(ps) == "," + (Fields(ps[1..]) + "}");
      SplitAt(s, next, ",", Fields(ps[1..]) + "}");
    }
  }

  lemma FieldsThenRest(ps: seq<Property>)
    requires ps != []
    ensures Fields(ps) + "}" == Field(ps[0]) + Rest(ps)
  {
    hide Field;
  }

  lemma OneStep(s: string, pos: nat, p: Property)
    requires Printable(p) && pos + 1 + |Field(p)| < |s| && s[pos] in ['{', ','] && s[pos + 1 + |Field(p)|] in [',', '}']
    requires s[pos + 1..pos + 1 + |Field(p)|] == Field(p)
    ensures PairsFrom(s, pos) == ReportedOne(p) + PairsFrom(s, pos + 1 + |Field(p)|)
  {
    hide NextObject, Field, Token, Printable, PairOf, PairsFrom;
    FieldFound(s, pos, p);
    Unroll(s, pos);
  }

  lemma {:induction false} FieldsFound(s: string, pos: nat, ps: seq<Property>)
    requires ps != [] && AllPrintable(ps) && pos < |s| && s[pos] in ['{', ',']
    requires s[pos + 1..] == Fields(ps) + "}"
    ensures PairsFrom(s, pos) == Reported(ps)
    decreases |ps|
  {
    hide Field, Fields, ReportedOne, Printable, AllPrintable, PairsFrom, Rest;
    var next := pos + 1 + |Field(ps[0])|;
    FieldsSplit(s, pos + 1, ps);
    PrintableParts(ps);
    OneStep(s, pos, ps[0]);
    if |ps| == 1 {
      NoMore(s, next);
      assert ps[1..] == [];
    } else {
      FieldsFound(s, next, ps[1..]);
    }
  }

  lemma NoMore(s: string, pos: nat)
    requires pos + 1 == |s| && s[pos] == '}'
    ensures PairsFrom(s, pos) == []
  {
    assert Find(s, pos, '"') == |s|;
  }

  /** Iterating over a printed object yields its properties, in order, less those with an empty key
      or an empty string. */
  lemma PrintedIsFound(ps: seq<Property>)
    requires AllPrintable(ps)
    ensures Pairs(ObjectText(ps)) == Reported(ps)
  {
    var s := ObjectText(ps);
    assert s[0] == '{' && s[1..] == Fields(ps) + "}";
    if ps == [] {
      assert Find(s, 0, '"') == |s|;
    } else {
      FieldsFound(s, 0, ps);
    }
  }
}
