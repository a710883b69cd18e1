// The JSON scanner of uiot/utils/json_parser.c.
module JsonScan {
  import opened Optional

  datatype Kind = JsString | JsObject | JsArray | JsNumber | JsBoolean | JsNull

  /** One key and its value: places in the text, and where the scan goes on. */
  datatype Item = Item(key: nat, keyLen: nat, val: nat, valLen: nat, kind: Kind, next: nat)

  datatype Pair = Pair(key: string, value: string, kind: Kind)

  predicate IsDigit(c: char) { '0' <= c <= '9' }

  /** strchr: the first place of a character, or the end of the text. */
  function Find(s: string, from: nat, c: char): (at: nat)
    requires from <= |s|
    ensures from <= at <= |s| && (at < |s| ==> s[at] == c) && c !in s[from..at]
    decreases |s| - from
  {
    if from == |s| || s[from] == c then from
    else
      var at := Find(s, from + 1, c);
      assert s[from..at] == [s[from]] + s[from + 1..at];
      at
  }

  lemma FindIs(s: string, from: nat, c: char, at: nat)
    requires from <= at < |s| && s[at] == c && c !in s[from..at]
    ensures Find(s, from, c) == at
  {
    NotIn(s, from, at, c);
    NotIn(s, from, Find(s, from, c), c);
  }

  lemma NotIn(s: string, from: nat, to: nat, c: char)
    requires from <= to <= |s| && c !in s[from..to]
    ensures forall k :: from <= k < to ==> s[k] != c
  {
    forall k | from <= k < to
      ensures s[k] != c
    {
      assert s[k] == s[from..to][k - from];
    }
  }

  /** The kind of value that starts with a character, if any does. */
  function KindOf(c: char): Option<Kind> {
    if c == '"' then Some(JsString)
    else if c == '{' then Some(JsObject)
    else if c == '[' then Some(JsArray)
    else if c == '-' || IsDigit(c) then Some(JsNumber)
    else if c in ['t', 'T', 'f', 'F'] then Some(JsBoolean)
    else if c == 'n' || c == 'N' then Some(JsNull)
    else None
  }

  function FindValue(s: string, from: nat): (at: nat)
    requires from <= |s|
    ensures from <= at <= |s| && (at < |s| ==> KindOf(s[at]).Some?)
    decreases |s| - from
  {
    if from == |s| || KindOf(s[from]).Some? then from else FindValue(s, from + 1)
  }

  /** The place of the mark that closes what was opened `depth` + 1 times, or the end of the text. */
  function CloseAt(s: string, from: nat, depth: nat, open: char, close: char): (at: nat)
    requires from <= |s|
    ensures from <= at <= |s|
    decreases |s| - from
  {
    if from == |s| then from
    else if s[from] == close then if depth == 0 then from else CloseAt(s, from + 1, depth - 1, open, close)
    else CloseAt(s, from + 1, if s[from] == open then depth + 1 else depth, open, close)
  }

  function NumberEnd(s: string, from: nat): (at: nat)
    requires from <= |s|
    ensures from <= at <= |s|
    decreases |s| - from
  {
    if from == |s| || !(IsDigit(s[from]) || s[from] == '.') then from else NumberEnd(s, from + 1)
  }

  predicate Stands(s: string, at: nat, word: string) {
    at + |word| <= |s| && s[at..at + |word|] == word
  }

  /** The length of the value of a kind that begins at `v`; 0 if the text ends before the value does. */
  function ValueLen(s: string, v: nat, kind: Kind): (n: nat)
    requires v <= |s| && (kind != JsString ==> v < |s|)
    ensures v + n <= |s|
    ensures kind == JsString && n > 0 ==> v + n < |s|
  {
    match kind
    case JsString => var e := Find(s, v, '"'); if e == |s| then 0 else e - v
    case JsObject => var e := CloseAt(s, v + 1, 0, '{', '}'); if e == |s| then 0 else e - v + 1
    case JsArray => var e := CloseAt(s, v + 1, 0, '[', ']'); if e == |s| then 0 else e - v + 1
    case JsNumber => var e := NumberEnd(s, v + 1); if e == |s| then 0 else e - v
    case JsBoolean =>
      if s[v] in ['t', 'T'] && (Stands(s, v, "true") || Stands(s, v, "TRUE")) then 4
      else if s[v] in ['f', 'F'] && (Stands(s, v, "false") || Stands(s, v, "FALSE")) then 5 else 0
    case JsNull => if Stands(s, v, "null") || Stands(s, v, "NULL") then 4 else 0
  }

  // ----- what the lengths of values mean -----

  /** How many more marks open than close between two places. */
  function Depth(s: string, from: nat, end: nat, open: char, close: char): int
    requires from <= end <= |s|
    decreases end - from
  {
    if from == end then 0
    else (if s[from] == open then 1 else if s[from] == close then -1 else 0) + Depth(s, from + 1, end, open, close)
  }

  /** The place is that of a closing mark before which as many marks have closed as opened, `depth` of
      them earlier. */
  predicate Closes(s: string, from: nat, at: nat, depth: int, open: char, close: char)
    requires from <= at < |s|
  {
    s[at] == close && depth + Depth(s, from, at, open, close) == 0
  }

  predicate ClosesNowhere(s: string, from: nat, end: nat, depth: int, open: char, close: char)
    requires from <= end <= |s|
  {
    forall k :: from <= k < end ==> !Closes(s, from, k, depth, open, close)
  }

  /** The scan stops at the first such place, or at the end if there is none. */
  lemma {:induction false} ClosesFirst(s: string, from: nat, depth: nat, open: char, close: char)
    requires from <= |s| && open != close
    ensures var at := CloseAt(s, from, depth, open, close);
            && (at < |s| ==> Closes(s, from, at, depth, open, close))
            && ClosesNowhere(s, from, at, depth, open, close)
    decreases |s| - from
  {
    if from < |s| && !(s[from] == close && depth == 0) {
      var next := if s[from] == close then depth - 1 else if s[from] == open then depth + 1 else depth;
      ClosesFirst(s, from + 1, next, open, close);
      forall k | from < k < |s|
        ensures Closes(s, from, k, depth, open, close) <==> Closes(s, from + 1, k, next, open, close)
      {
      }
    }
  }

  /** An object or an array goes from its opening mark to the one that closes it; without one it has no
      length. */
  lemma BracketsExactly(s: string, v: nat, kind: Kind)
    requires v < |s| && (kind == JsObject || kind == JsArray)
    ensures var n := ValueLen(s, v, kind);
            var open, close := if kind == JsObject then '{' else '[', if kind == JsObject then '}' else ']';
            && (n > 0 ==> n >= 2 && Closes(s, v + 1, v + n - 1, 0, open, close)
                          && ClosesNowhere(s, v + 1, v + n - 1, 0, open, close))
            && (n == 0 ==> ClosesNowhere(s, v + 1, |s|, 0, open, close))
  {
    ClosesFirst(s, v + 1, 0, if kind == JsObject then '{' else '[', if kind == JsObject then '}' else ']');
  }

  /** A number goes on over digits and points; at the end of the text it has no length. */
  lemma NumberExactly(s: string, v: nat)
    requires v < |s|
    ensures var n := ValueLen(s, v, JsNumber);
            && (n > 0 ==> v + n < |s| && !('0' <= s[v + n] <= '9' || s[v + n] == '.')
                          && forall k :: v < k < v + n ==> '0' <= s[k] <= '9' || s[k] == '.')
            && (n == 0 ==> forall k :: v < k < |s| ==> '0' <= s[k] <= '9' || s[k] == '.')
  {
    NumberStops(s, v + 1);
  }

  lemma {:induction false} NumberStops(s: string, from: nat)
    requires from <= |s|
    ensures var at := NumberEnd(s, from);
            && (at < |s| ==> !('0' <= s[at] <= '9' || s[at] == '.'))
            && forall k :: from <= k < at ==> '0' <= s[k] <= '9' || s[k] == '.'
    decreases |s| - from
  {
    if from < |s| && (IsDigit(s[from]) || s[from] == '.') {
      NumberStops(s, from + 1);
    }
  }

  /** The words, in small or in capital letters throughout. */
  lemma WordsExactly(s: string, v: nat)
    requires v < |s|
    ensures ValueLen(s, v, JsBoolean)
            == if "true" <= s[v..] || "TRUE" <= s[v..] then 4 else if "false" <= s[v..] || "FALSE" <= s[v..] then 5
              else 0
    ensures ValueLen(s, v, JsNull) == if "null" <= s[v..] || "NULL" <= s[v..] then 4 else 0
  {
    WordStands(s, v, "true");
    WordStands(s, v, "TRUE");
    WordStands(s, v, "false");
    WordStands(s, v, "FALSE");
    WordStands(s, v, "null");
    WordStands(s, v, "NULL");
    hide Stands;
  }

  lemma WordStands(s: string, v: nat, word: string)
    requires v < |s| && word != ""
    ensures Stands(s, v, word) <==> word <= s[v..]
    ensures Stands(s, v, word) ==> s[v] == word[0]
  {
    if Stands(s, v, word) {
      assert s[v..][..|word|] == s[v..v + |word|];
      assert s[v..v + |word|][0] == s[v];
    }
  }

  /** What the first character of a value tells. */
  lemma KindsExactly()
    ensures KindOf('"') == Some(JsString) && KindOf('{') == Some(JsObject) && KindOf('[') == Some(JsArray)
    ensures KindOf('-') == Some(JsNumber) && forall c :: '0' <= c <= '9' ==> KindOf(c) == Some(JsNumber)
    ensures forall c :: c == 't' || c == 'T' || c == 'f' || c == 'F' <==> KindOf(c) == Some(JsBoolean)
    ensures forall c :: c == 'n' || c == 'N' <==> KindOf(c) == Some(JsNull)
    ensures KindOf(',').None? && KindOf('}').None? && KindOf(']').None? && KindOf(' ').None? && KindOf(':').None?
  {
  }

  /** json_get_next_object for objects. */
  function NextObject(s: string, pos: nat): (r: Option<Item>)
    requires pos <= |s|
    ensures r.Some? ==>
              var i := r.value;
              pos < i.key && i.key + i.keyLen < i.val <= |s| && i.val + i.valLen <= |s| && pos < i.next
  {
    var q := Find(s, pos, '"');
    if q == |s| then None
    else
      var e := Find(s, q + 1, '"');
      if e == |s| then None
      else
        var v := FindValue(s, Find(s, e, ':'));
        if v == |s| then None
        else
          ValueAt(s, q + 1, e - q - 1, v, KindOf(s[v]).value)
  }

  function ValueAt(s: string, key: nat, keyLen: nat, v: nat, kind: Kind): (r: Option<Item>)
    requires v < |s|
    ensures r.Some? && r.value.val == (if kind == JsString then v + 1 else v) && r.value.kind == kind
    ensures r.value.key == key && r.value.keyLen == keyLen && r.value.val + r.value.valLen <= |s| && v <= r.value.next
  {
    var at := if kind == JsString then v + 1 else v;
    var n := ValueLen(s, at, kind);
    Some(Item(key, keyLen, at, n, kind, at + n + if kind == JsString then 1 else 0))
  }

  // ----- the loops of the source -----

  method StrChr(s: string, from: nat, c: char) returns (at: nat)
    requires from <= |s|
    ensures at == Find(s, from, c)
  {
    at := from;
    while at < |s| && s[at] != c
      invariant from <= at <= |s| && Find(s, at, c) == Find(s, from, c)
    {
      at := at + 1;
    }
  }

  method ScanToValue(s: string, from: nat) returns (at: nat)
    requires from <= |s|
    ensures at == FindValue(s, from)
  {
    at := from;
    while at < |s| && KindOf(s[at]).None?
      invariant from <= at <= |s| && FindValue(s, at) == FindValue(s, from)
    {
      at := at + 1;
    }
  }

  /** The loop over the characters of a value, `pos` being behind its first character if that is a mark
      or a digit. */
  method ScanValue(s: string, v: nat, kind: Kind) returns (n: nat)
    requires v <= |s| && (kind != JsString ==> v < |s|)
    ensures n == ValueLen(s, v, kind)
  {
    var pos := if kind == JsObject || kind == JsArray || kind == JsNumber then v + 1 else v;
    var depth := 0;
    var open := if kind == JsObject then '{' else if kind == JsArray then '[' else '"';
    var close := if kind == JsObject then '}' else if kind == JsArray then ']' else '"';
    while pos < |s|
      invariant v <= pos <= |s| && (kind in {JsObject, JsArray, JsNumber} ==> v < pos)
      invariant kind == JsString ==> depth == 0 && Find(s, pos, '"') == Find(s, v, '"')
      invariant kind == JsObject || kind == JsArray ==>
                  CloseAt(s, pos, depth, open, close) == CloseAt(s, v + 1, 0, open, close)
      invariant kind == JsNumber ==> NumberEnd(s, pos) == NumberEnd(s, v + 1)
      invariant kind == JsBoolean || kind == JsNull ==> pos == v || ValueLen(s, v, kind) == 0
      decreases |s| - pos
    {
      match kind {
        case JsBoolean =>
          if s[v] in ['t', 'T'] && (Stands(s, v, "true") || Stands(s, v, "TRUE")) {
            return 4;
          } else if s[v] in ['f', 'F'] && (Stands(s, v, "false") || Stands(s, v, "FALSE")) {
            return 5;
          }
        case JsNull =>
          if Stands(s, v, "null") || Stands(s, v, "NULL") {
            return 4;
          }
        case JsNumber =>
          if !(IsDigit(s[pos]) || s[pos] == '.') {
            return pos - v;
          }
        case _ =>
          if s[pos] == close {
            if depth == 0 {
              return pos - v + (if kind == JsString then 0 else 1);
            }
            depth := depth - 1;
          } else if s[pos] == open {
            depth := depth + 1;
          }
      }
      pos := pos + 1;
    }
    n := 0;
  }

  /** json_get_next_object */
  method GetNextObject(s: string, pos: nat) returns (r: Option<Item>)
    requires pos <= |s|
    ensures r == NextObject(s, pos)
  {
    hide ValueLen;
    var at := StrChr(s, pos, '"');
    if at == |s| {
      return None;
    }
    var name := at + 1;
    at := StrChr(s, name, '"');
    if at == |s| {
      return None;
    }
    var nameLen := at - name;
    at := StrChr(s, at, ':');
    at := ScanToValue(s, at);
    if at == |s| {
      return None;
    }
    var kind := KindOf(s[at]).value;
    var value := if kind == JsString then at + 1 else at;
    var valueLen := ScanValue(s, value, kind);
    r := Some(Item(name, nameLen, value, valueLen, kind,
                   if kind == JsString then value + valueLen + 1 else value + valueLen));
  }

  /** json_get_object for objects: spaces, then the opening brace. */
  function StartOf(s: string, from: nat): (r: Option<nat>)
    requires from <= |s|
    ensures r.Some? ==> from <= r.value < |s|
    decreases |s| - from
  {
    if from == |s| then None
    else if s[from] == ' ' then StartOf(s, from + 1)
    else if s[from] == '{' then Some(from) else None
  }

  /** The object starts with the first character that is no space, if that is a brace. */
  lemma {:induction false} StartExactly(s: string, from: nat, at: nat)
    requires from <= |s|
    ensures StartOf(s, from) == Some(at) <==>
              from <= at < |s| && s[at] == '{' && forall i :: from <= i < at ==> s[i] == ' '
    decreases |s| - from
  {
    if from < |s| && s[from] == ' ' {
      StartExactly(s, from + 1, at);
    }
  }

  method GetObject(s: string) returns (r: Option<nat>)
    ensures r == StartOf(s, 0)
  {
    var i := 0;
    while i < |s| && s[i] == ' '
      invariant 0 <= i <= |s| && StartOf(s, i) == StartOf(s, 0)
    {
      i := i + 1;
    }
    r := if i < |s| && s[i] == '{' then Some(i) else None;
  }

  function PairOf(s: string, i: Item): Pair
    requires i.key + i.keyLen <= |s| && i.val + i.valLen <= |s|
  {
    Pair(s[i.key..i.key + i.keyLen], s[i.val..i.val + i.valLen], i.kind)
  }

  /** The pairs found from a place on; those with an empty key or value are not reported. */
  function PairsFrom(s: string, pos: nat): seq<Pair>
    decreases if pos <= |s| then |s| - pos else 0
  {
    if pos >= |s| then []
    else
      match NextObject(s, pos)
      case None => []
      case Some(i) => (if i.keyLen > 0 && i.valLen > 0 then [PairOf(s, i)] else []) + PairsFrom(s, i.next)
  }

  function Pairs(s: string): seq<Pair> {
    match StartOf(s, 0)
    case None => []
    case Some(pos) => PairsFrom(s, pos)
  }

  /** Where the iteration comes to its end. */
  function StopFrom(s: string, pos: nat): nat
    decreases if pos <= |s| then |s| - pos else 0
  {
    if pos >= |s| then pos
    else
      match NextObject(s, pos)
      case None => pos
      case Some(i) => StopFrom(s, i.next)
  }

  function Stop(s: string): nat {
    match StartOf(s, 0)
    case None => 0
    case Some(pos) => StopFrom(s, pos)
  }

  /** json_object_for_each_kv with the filter of json_parse_name_value, and where it stops. */
  method ForEachPair(s: string) returns (found: seq<Pair>, pos: nat)
    ensures found == Pairs(s) && pos == Stop(s)
  {
    hide NextObject, PairsFrom, StopFrom, StartOf;
    found, pos := [], 0;
    var start := GetObject(s);
    if start.None? {
      return;
    }
    pos := start.value;
    while pos < |s|
      invariant found + PairsFrom(s, pos) == Pairs(s) && StopFrom(s, pos) == Stop(s)
      decreases |s| - pos
    {
      Unroll(s, pos);
      UnrollStop(s, pos);
      var r := GetNextObject(s, pos);
      if r.None? {
        return;
      }
      var i := r.value;
      if i.keyLen > 0 && i.valLen > 0 {
        found := found + [PairOf(s, i)];
      }
      pos := i.next;
    }
    Unroll(s, pos);
    UnrollStop(s, pos);
  }

  lemma UnrollStop(s: string, pos: nat)
    ensures StopFrom(s, pos)
            == if pos >= |s| || NextObject(s, pos).None? then pos else StopFrom(s, NextObject(s, pos).value.next)
  {
    hide NextObject;
  }

  /** A string value opens with the last character of the text, where the iteration comes by. */
  predicate OpensAtEnd(s: string, pos: nat)
    decreases if pos <= |s| then |s| - pos else 0
  {
    pos < |s| &&
    match NextObject(s, pos)
    case None => false
    case Some(i) => (i.kind == JsString && i.val == |s|) || OpensAtEnd(s, i.next)
  }

  /** The iteration steps over the end of the text if and only if a string value opens there; then it
      stands one place behind the terminator and reads on. */
  lemma {:induction false} StopsInsideExactly(s: string, pos: nat)
    requires pos <= |s|
    ensures StopFrom(s, pos) == |s| + 1 || StopFrom(s, pos) <= |s|
    ensures StopFrom(s, pos) <= |s| <==> !OpensAtEnd(s, pos)
    decreases |s| - pos
  {
    hide NextObject;
    if pos < |s| && NextObject(s, pos).Some? {
      var i := NextObject(s, pos).value;
      NextInsideExactly(s, pos, i);
      if i.next <= |s| {
        StopsInsideExactly(s, i.next);
      }
    }
  }

  lemma NextInsideExactly(s: string, pos: nat, i: Item)
    requires pos <= |s| && NextObject(s, pos) == Some(i)
    ensures i.next <= |s| + 1 && (i.next == |s| + 1 <==> i.kind == JsString && i.val == |s|)
    ensures i.kind == JsString ==> s[i.val - 1] == '"'
  {
    hide Find, FindValue;
  }

  /** So no text that ends in anything but a quote is left, and `{"a":"` is. */
  lemma {:induction false} OnlyQuotesAtEnd(s: string, pos: nat)
    requires s != "" && s[|s| - 1] != '"' && pos <= |s|
    ensures !OpensAtEnd(s, pos)
    decreases |s| - pos
  {
    hide NextObject;
    if pos < |s| && NextObject(s, pos).Some? {
      var i := NextObject(s, pos).value;
      NextInsideExactly(s, pos, i);
      if i.next <= |s| {
        OnlyQuotesAtEnd(s, i.next);
      }
    }
  }

  lemma OpenStringIsLeft()
    ensures Stop("{\"a\":\"") == |"{\"a\":\""| + 1
  {
    var s := "{\"a\":\"";
    FindIs(s, 0, '"', 1);
    FindIs(s, 2, '"', 3);
    FindIs(s, 3, ':', 4);
    assert FindValue(s, 4) == 5;
    assert NextObject(s, 0) == Some(Item(2, 1, 6, 0, JsString, 7));
    UnrollStop(s, 0);
    UnrollStop(s, 7);
  }

  lemma Unroll(s: string, pos: nat)
    ensures pos >= |s| ==> PairsFrom(s, pos) == []
    ensures pos < |s| && NextObject(s, pos).None? ==> PairsFrom(s, pos) == []
    ensures pos < |s| && NextObject(s, pos).Some? ==>
              var i := NextObject(s, pos).value;
              PairsFrom(s, pos) == (if i.keyLen > 0 && i.valLen > 0 then [PairOf(s, i)] else []) + PairsFrom(s, i.next)
  {
    hide NextObject;
  }

  // ----- lookup -----

  /** The first pair whose key starts with the name. */
  function Lookup(ps: seq<Pair>, name: string): Option<Pair> {
    if ps == [] then None
    else if name <= ps[0].key then Some(ps[0])
    else Lookup(ps[1..], name)
  }

  /** A pair with the text from its key to the end, which the look-up compares with the name. */
  datatype Sight = Sight(pair: Pair, text: string)

  function SightsFrom(s: string, pos: nat): seq<Sight>
    decreases if pos <= |s| then |s| - pos else 0
  {
    if pos >= |s| then []
    else
      match NextObject(s, pos)
      case None => []
      case Some(i) => SightOf(s, i) + SightsFrom(s, i.next)
  }

  function SightOf(s: string, i: Item): (sights: seq<Sight>)
    requires i.key + i.keyLen <= |s| && i.val + i.valLen <= |s|
    ensures |sights| <= 1
  {
    if i.keyLen > 0 && i.valLen > 0 then [Sight(PairOf(s, i), s[i.key..])] else []
  }

  function Sights(s: string): seq<Sight> {
    match StartOf(s, 0)
    case None => []
    case Some(pos) => SightsFrom(s, pos)
  }

  /** The first pair at whose key the name stands, be it that it goes on behind the key. */
  function Spotted(sights: seq<Sight>, name: string): Option<Pair> {
    if sights == [] then None
    else if name <= sights[0].text then Some(sights[0].pair)
    else Spotted(sights[1..], name)
  }

  /** For a name without quotes that is the first pair whose key starts with the name. */
  lemma {:induction false} SpottedIsLookup(s: string, pos: nat, name: string)
    requires '"' !in name
    ensures Spotted(SightsFrom(s, pos), name) == Lookup(PairsFrom(s, pos), name)
    decreases if pos <= |s| then |s| - pos else 0
  {
    hide NextObject, PairsFrom, SightsFrom;
    Unroll(s, pos);
    UnrollSights(s, pos);
    if pos < |s| && NextObject(s, pos).Some? {
      var i := NextObject(s, pos).value;
      SpottedIsLookup(s, i.next, name);
      StandsInKey(s, pos, i, name);
      assert name <= s[i.key..] <==> Stands(s, i.key, name);
      LookupStep(if i.keyLen > 0 && i.valLen > 0 then [PairOf(s, i)] else [], PairsFrom(s, i.next), name);
      SpottedStep(SightOf(s, i), SightsFrom(s, i.next), name);
    }
  }

  /** The text in a buffer: what stands before the first NUL. */
  function Text(buf: seq<char>): (s: string)
    ensures s <= buf && '\0' !in s && (|s| < |buf| ==> buf[|s|] == '\0')
  {
    if buf == [] || buf[0] == '\0' then [] else [buf[0]] + Text(buf[1..])
  }

  /** With a place for the type, a null value is hidden from the caller. */
  function Shown(r: Option<Pair>, typed: bool): Option<Pair> {
    if typed && r.Some? && r.value.kind == JsNull then None else r
  }

  /** json_get_value_by_name on a text in a buffer, of which the caller says the length; `typed` says
      that it also passes a place for the type. strncmp compares the text at the key with the name. A
      text that goes on behind the length is cut there with a NUL and stays cut, because by then it has
      just this length; with one that is shorter nothing changes. */
  method GetValueByName(buf: array<char>, len: nat, name: string, typed: bool) returns (r: Option<Pair>)
    requires len < buf.Length
    modifies buf
    ensures buf[..] == if len == 0 || '\0' in old(buf[..len]) then old(buf[..]) else old(buf[..])[len := '\0']
    ensures r == Shown(Spotted(Sights(Text(old(buf[..len]))), name), typed)
    ensures '"' !in name ==> r == Shown(Lookup(Pairs(Text(old(buf[..len]))), name), typed)
  {
    ghost var text := Text(buf[..len]);
    ByName(text, name);
    hide Pairs, Sights;
    if len == 0 {
      NoPairs();
      return None;
    }
    var lastChar := buf[len];
    var textLen := StrLen(buf, len + 1);
    if textLen != len {
      buf[len] := '\0';
    }
    textLen := StrLen(buf, len + 1);
    TextIs(buf[..], len, textLen);
    r := FindName(buf[..textLen], name);
    if textLen != len {
      buf[len] := lastChar;
    }
    if typed && r.Some? && r.value.kind == JsNull {
      r := None;
    }
  }

  lemma TextIs(buf: seq<char>, len: nat, n: nat)
    requires n <= len < |buf| && '\0' !in buf[..n] && (n < len ==> buf[n] == '\0')
    ensures Text(buf[..len]) == buf[..n]
  {
    var t := Text(buf[..len]);
    assert forall i :: 0 <= i < |t| ==> t[i] == buf[i] && t[i] != '\0';
    assert forall i :: 0 <= i < n ==> buf[..n][i] == buf[i];
    assert |t| == n;
  }

  /** strlen, as far as it is below `max`. */
  method StrLen(buf: array<char>, max: nat) returns (n: nat)
    requires max <= buf.Length
    ensures n <= max && '\0' !in buf[..n] && (n < max ==> buf[n] == '\0')
  {
    n := 0;
    while n < max && buf[n] != '\0'
      invariant 0 <= n <= max && '\0' !in buf[..n]
    {
      n := n + 1;
    }
  }

  lemma ByName(s: string, name: string)
    ensures '"' !in name ==> Spotted(Sights(s), name) == Lookup(Pairs(s), name)
  {
    match StartOf(s, 0)
    case None =>
    case Some(pos) =>
      if '"' !in name {
        SpottedIsLookup(s, pos, name);
      }
  }

  lemma NoPairs()
    ensures Sights("") == []
  {
  }

  /** The iteration with the call-back that stops at the first key at which the name stands. */
  method FindName(s: string, name: string) returns (r: Option<Pair>)
    ensures r == Spotted(Sights(s), name)
  {
    hide NextObject, SightsFrom, StartOf;
    r := None;
    var start := GetObject(s);
    if start.None? {
      return;
    }
    var pos := start.value;
    while pos < |s|
      invariant r.None? && Spotted(SightsFrom(s, pos), name) == Spotted(Sights(s), name)
      decreases |s| - pos
    {
      UnrollSights(s, pos);
      var next := GetNextObject(s, pos);
      if next.None? {
        return;
      }
      var i := next.value;
      assert name <= s[i.key..] <==> Stands(s, i.key, name);
      SpottedStep(SightOf(s, i), SightsFrom(s, i.next), name);
      if i.keyLen > 0 && i.valLen > 0 && Stands(s, i.key, name) {
        return Some(PairOf(s, i));
      }
      pos := i.next;
    }
    UnrollSights(s, pos);
  }

  lemma UnrollSights(s: string, pos: nat)
    ensures pos >= |s| ==> SightsFrom(s, pos) == []
    ensures pos < |s| && NextObject(s, pos).None? ==> SightsFrom(s, pos) == []
    ensures pos < |s| && NextObject(s, pos).Some? ==>
              var i := NextObject(s, pos).value; SightsFrom(s, pos) == SightOf(s, i) + SightsFrom(s, i.next)
  {
    hide NextObject;
  }

  lemma SpottedStep(head: seq<Sight>, rest: seq<Sight>, name: string)
    requires |head| <= 1
    ensures Spotted(head + rest, name) == if head == [] || !(name <= head[0].text) then Spotted(rest, name)
                                          else Some(head[0].pair)
  {
    if head == [] {
      assert head + rest == rest;
    } else {
      assert (head + rest)[1..] == rest;
    }
  }

  lemma LookupStep(head: seq<Pair>, rest: seq<Pair>, name: string)
    requires |head| <= 1
    ensures Lookup(head + rest, name) == if head == [] || !(name <= head[0].key) then Lookup(rest, name)
                                         else Some(head[0])
  {
    if head == [] {
      assert head + rest == rest;
    } else {
      assert (head + rest)[1..] == rest;
    }
  }

  /** A name without quotes that stands at a key stands within it. */
  lemma StandsInKey(s: string, pos: nat, i: Item, name: string)
    requires pos < |s| && NextObject(s, pos) == Some(i) && '"' !in name
    ensures Stands(s, i.key, name) <==> name <= s[i.key..i.key + i.keyLen]
  {
    hide ValueLen;
    var key := s[i.key..i.key + i.keyLen];
    assert i.key + i.keyLen == Find(s, Find(s, pos, '"') + 1, '"') && s[i.key + i.keyLen] == '"';
    assert |name| <= i.keyLen ==> key[..|name|] == s[i.key..i.key + |name|];
    assert i.keyLen < |name| && i.key + |name| <= |s| ==> s[i.key..i.key + |name|][i.keyLen] == '"';
  }

  lemma {:induction false} LookupFirst(ps: seq<Pair>, name: string, j: nat)
    requires j < |ps| && name <= ps[j].key && forall i :: 0 <= i < j ==> !(name <= ps[i].key)
    ensures Lookup(ps, name) == Some(ps[j])
  {
    if j > 0 {
      LookupFirst(ps[1..], name, j - 1);
    }
  }

  /** Lookup by name finds the pair of that name exactly when no earlier key starts with it. */
  lemma LookupExactly(ps: seq<Pair>, k: nat)
    requires k < |ps| && forall j :: 0 <= j < k ==> ps[j].key != ps[k].key
    ensures Lookup(ps, ps[k].key) == Some(ps[k]) <==> forall j :: 0 <= j < k ==> !(ps[k].key <= ps[j].key)
  {
    var j := FirstMatch(ps, ps[k].key, k);
    LookupFirst(ps, ps[k].key, j);
  }

  lemma FirstMatch(ps: seq<Pair>, name: string, k: nat) returns (j: nat)
    requires k < |ps| && name <= ps[k].key
    ensures j <= k && name <= ps[j].key && forall i :: 0 <= i < j ==> !(name <= ps[i].key)
  {
    j := 0;
    while !(name <= ps[j].key)
      invariant 0 <= j <= k && forall i :: 0 <= i < j ==> !(name <= ps[i].key)
      decreases k - j
    {
      j := j + 1;
    }
  }
}
