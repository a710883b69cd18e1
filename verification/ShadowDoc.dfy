// The document builder of uiot/shadow/src/shadow_client_manager.c on put_json_node of
// uiot/shadow/src/shadow_client_json.c.
module ShadowDoc {
  import opened JsonScan
  import opened JsonPrint
  import opened Optional

  const SUCCESS_RET := 0
  const ERR_JSON_BUFFER_TRUNCATED := -133
  const ERR_JSON_BUFFER_TOO_SMALL := -134
  const TWO_32 := 0x1_0000_0000

  datatype Method = Get | Update | UpdateAndResetVer | ReplyControlUpdate | Delete | ReplyControlDelete | DeleteAll

  function Min(a: int, b: int): int { if a <= b then a else b }

  /** A size_t difference. */
  function Remain(size: int, len: nat): (r: nat)
    ensures 0 <= size - len < TWO_32 ==> r == size - len
  {
    (size - len) % TWO_32
  }

  /** What put_json_node appends. */
  function Node(p: Property): (s: string)
    ensures s != ""
  {
    Field(p) + ","
  }

  function Nodes(ps: seq<Property>): string {
    if ps == [] then "" else Nodes(ps[..|ps| - 1]) + Node(ps[|ps| - 1])
  }

  /** What of a text is written where there is room for so many bytes, the terminator included. */
  function Cut(t: string, room: nat): (s: string)
    ensures s <= t && (s == t <==> t == "" || |t| < room)
  {
    t[..Min(|t|, if room == 0 then 0 else room - 1)]
  }

  /** put_json_node as the document builder calls it: with what remains of the buffer as its size, so
      that the length of the text is taken off twice. */
  function Put(size: nat, text: string, p: Property): string {
    text + Cut(Node(p), Remain(size, 2 * |text|))
  }

  function PutAll(size: nat, text: string, ps: seq<Property>): string {
    if ps == [] then text else Put(size, PutAll(size, text, ps[..|ps| - 1]), ps[|ps| - 1])
  }

  /** The document in a buffer of `size` bytes, with what is written behind the buffer. */
  class Document {
    const size: nat
    var text: string

    constructor (size: nat)
      ensures this.size == size && text == ""
    {
      this.size, text := size, "";
    }

    /** HAL_Snprintf at a place of the text: the return value is the length it wanted to write. */
    method Snprintf(at: nat, room: nat, t: string) returns (ret: int)
      requires at <= |text| < at + 2
      modifies this
      ensures ret == |t|
      ensures text == if room == 0 then old(text) else old(text)[..at] + Cut(t, room)
    {
      ret := |t|;
      if room > 0 {
        text := text[..at] + Cut(t, room);
      }
    }

    /** _check_snprintf_return */
    method Check(returned: nat, room: nat) returns (ret: int)
      ensures ret == if returned >= room then ERR_JSON_BUFFER_TRUNCATED else SUCCESS_RET
    {
      ret := if returned >= room then ERR_JSON_BUFFER_TRUNCATED else SUCCESS_RET;
    }

    /** put_json_node: the node is cut to what remains of the given size, and success is reported
        exactly when it is whole. */
    method PutNode(sizeOfBuffer: int, p: Property) returns (ret: int)
      modifies this
      ensures ret == SUCCESS_RET <==> |Node(p)| < Remain(sizeOfBuffer, |old(text)|)
      ensures text == old(text) + Cut(Node(p), Remain(sizeOfBuffer, |old(text)|))
    {
      hide ValueText, Node, Cut, Remain;
      var room := Remain(sizeOfBuffer, |text|);
      var key, value := KeyPart(p), ValueText(p.value) + ",";
      NodeParts(p);
      hide KeyPart;
      CutParts(key, value, room);
      if room <= 1 {
        return ERR_JSON_BUFFER_TOO_SMALL;
      }
      var n := Snprintf(|text|, room, key);
      ret := Check(n, room);
      if ret != SUCCESS_RET {
        return;
      }
      RemainAfter(sizeOfBuffer, |old(text)|, |key|);
      room := Remain(sizeOfBuffer, |text|);
      if room <= 1 {
        return ERR_JSON_BUFFER_TOO_SMALL;
      }
      n := Snprintf(|text|, room, value);
      ret := Check(n, room);
    }

    /** shadow_json_init */
    method Init(m: Method, nonEmpty: bool)
      modifies this
      ensures text == Cut(InitText(m, nonEmpty), size)
    {
      text := "";
      var _ := Snprintf(0, size, InitText(m, nonEmpty));
    }

    /** shadow_json_set_content: the results of put_json_node are not looked at. The content is complete
        exactly when every node is shorter than what remains after taking the length off twice; the
        text stays inside the buffer exactly when no node overruns it. */
    method SetContent(m: Method, ps: seq<Property>) returns (ret: int)
      modifies this
      ensures m == Get ==> text == old(text) && ret == SUCCESS_RET
      ensures m == DeleteAll ==>
                && (ret == SUCCESS_RET <==> 4 < Remain(size, |old(text)|))
                && text == old(text) + Cut("null", Remain(size, |old(text)|))
      ensures m != Get && m != DeleteAll ==>
                && ret == SUCCESS_RET && text == PutAll(size, old(text), Content(m, ps))
                && (text == old(text) + Nodes(Content(m, ps)) <==> Complete(size, |old(text)|, Content(m, ps)))
                && (|old(text)| < size < TWO_32 ==> (|text| < size <==> NeverOverruns(size, old(text), Content(m, ps))))
    {
      hide Node, Remain, Nodes, Complete, Content, Cut, PutAll, NeverOverruns;
      ret := SUCCESS_RET;
      if m == Get {
        return;
      }
      var room := Remain(size, |text|);
      if m == DeleteAll {
        CutNothing("null");
        var n := Snprintf(|text|, room, "null");
        ret := Check(n, room);
        return;
      }
      ghost var start, content := text, Content(m, ps);
      PutStep(size, start, content, 0);
      for i := 0 to |ps|
        invariant text == PutAll(size, start, content[..i]) && room == Remain(size, |text|)
      {
        PutStep(size, start, content, i);
        RemainTwice(size, |text|);
        var _ := PutNode(room, Printed(m, ps[i]));
        room := Remain(size, |text|);
      }
      assert content[..|ps|] == content;
      CompleteExactly(size, start, content);
      if |start| < size < TWO_32 {
        ContentInsideExactly(size, start, content);
      }
    }

    /** shadow_json_finalize: for most methods the comma behind the last node is overwritten. */
    method Finalize(m: Method, nonEmpty: bool, version: int) returns (ret: int)
      requires text != ""
      modifies this
      ensures var t := FinalText(m, nonEmpty, version); var room := Remain(size, |old(text)|);
              && (ret == SUCCESS_RET <==> room > 1 && |t| < room)
              && (text == if room <= 1 then old(text)
                          else old(text)[..|old(text)| - if Overwrites(m, nonEmpty) then 1 else 0] + Cut(t, room))
    {
      hide FinalText, Cut;
      var room := Remain(size, |text|);
      if room <= 1 {
        return ERR_JSON_BUFFER_TOO_SMALL;
      }
      var n := Snprintf(if Overwrites(m, nonEmpty) then |text| - 1 else |text|, room, FinalText(m, nonEmpty, version));
      ret := Check(n, room);
    }
  }

  function KeyPart(p: Property): string { "\"" + p.key + "\":" }

  lemma NodeParts(p: Property)
    ensures Node(p) == KeyPart(p) + (ValueText(p.value) + ",")
  {
    hide ValueText;
  }

  lemma CutNothing(t: string)
    ensures Cut(t, 0) == ""
  {
  }

  /** Cutting the two parts of a node is cutting the node. */
  lemma CutParts(key: string, value: string, room: nat)
    ensures |key| >= room ==> Cut(key + value, room) == Cut(key, room)
    ensures |key| < room ==> Cut(key, room) == key && Cut(key + value, room) == key + Cut(value, room - |key|)
    ensures room <= 1 ==> Cut(key + value, room) == ""
    ensures |key| < room <= |key| + 1 ==> Cut(value, room - |key|) == ""
    ensures |value| < room - |key| <==> |key + value| < room
    ensures |value| < room - |key| ==> Cut(value, room - |key|) == value
  {
  }

  lemma RemainAfter(size: int, len: nat, n: nat)
    requires n < Remain(size, len)
    ensures Remain(size, len + n) == Remain(size, len) - n
  {
    var q := (size - len) / TWO_32;
    assert size - len - n == q * TWO_32 + (Remain(size, len) - n);
    DivMod(size - len - n, q, Remain(size, len) - n);
  }

  lemma DivMod(a: int, q: int, r: int)
    requires a == q * TWO_32 + r && 0 <= r < TWO_32
    ensures a % TWO_32 == r
  {
  }

  lemma RemainTwice(size: int, len: nat)
    ensures Remain(Remain(size, len), len) == Remain(size, 2 * len)
  {
    var q, p := (size - len) / TWO_32, (Remain(size, len) - len) / TWO_32;
    DivMod(size - 2 * len, q + p, Remain(Remain(size, len), len));
  }

  // ----- the parts of the document -----

  function MethodName(m: Method): string {
    match m
    case Get => "get"
    case Update | UpdateAndResetVer | ReplyControlUpdate => "update"
    case Delete | ReplyControlDelete | DeleteAll => "delete"
  }

  function InitText(m: Method, nonEmpty: bool): string {
    "{\"Method\":\"" + MethodName(m) +
    match m
    case Get => "\""
    case Update | UpdateAndResetVer => "\",\"State\":{\"Reported\":{"
    case ReplyControlUpdate | Delete | ReplyControlDelete =>
      if nonEmpty then "\",\"State\":{\"Reported\":{" else "\",\"State\":{"
    case DeleteAll => "\",\"State\":{\"Reported\":"
  }

  function VersionText(version: int): string { ",\"Version\":" + Decimal(version) + "}" }

  function FinalText(m: Method, nonEmpty: bool, version: int): (t: string)
    ensures t != ""
  {
    match m
    case Get => "}"
    case DeleteAll => "}" + VersionText(version)
    case UpdateAndResetVer => "}}" + VersionText(-1)
    case ReplyControlUpdate | ReplyControlDelete =>
      if nonEmpty then "},\"Desired\":null}" + VersionText(version) else "\"Desired\":null}" + VersionText(version)
    case Update | Delete => "}}" + VersionText(version)
  }

  predicate Overwrites(m: Method, nonEmpty: bool) {
    match m
    case Get | DeleteAll => false
    case ReplyControlUpdate | ReplyControlDelete => nonEmpty
    case Update | UpdateAndResetVer | Delete => true
  }

  /** The properties as a method prints them: deleting prints null. */
  function Printed(m: Method, p: Property): Property {
    if m in {Delete, ReplyControlDelete} then Property(p.key, Null) else p
  }

  function Content(m: Method, ps: seq<Property>): (c: seq<Property>)
    ensures |c| == |ps| && forall i :: 0 <= i < |ps| ==> c[i] == Printed(m, ps[i])
  {
    if ps == [] then [] else Content(m, ps[..|ps| - 1]) + [Printed(m, ps[|ps| - 1])]
  }

  /** Every node is shorter than what is left when the length of the text is taken off twice. */
  predicate Complete(size: nat, len: nat, ps: seq<Property>) {
    ps == [] || (Complete(size, len, ps[..|ps| - 1])
                 && |Node(ps[|ps| - 1])| < Remain(size, 2 * (len + |Nodes(ps[..|ps| - 1])|)))
  }

  lemma PutStep(size: nat, text: string, ps: seq<Property>, i: nat)
    requires i <= |ps|
    ensures PutAll(size, text, ps[..0]) == text
    ensures i < |ps| ==> PutAll(size, text, ps[..i + 1]) == Put(size, PutAll(size, text, ps[..i]), ps[i])
  {
    hide Put;
    if i < |ps| {
      assert ps[..i + 1][..i] == ps[..i];
    }
  }

  /** Some of the content is missing unless every node is whole. */
  lemma {:induction false} CompleteExactly(size: nat, text: string, ps: seq<Property>)
    ensures var t := PutAll(size, text, ps);
            if Complete(size, |text|, ps) then t == text + Nodes(ps) else |t| < |text| + |Nodes(ps)|
  {
    hide Node, Remain, Cut;
    if ps != [] {
      var init, last := ps[..|ps| - 1], ps[|ps| - 1];
      CompleteExactly(size, text, init);
      CutShorter(Node(last), Remain(size, 2 * |PutAll(size, text, init)|));
      assert Nodes(ps) == Nodes(init) + Node(last);
    }
  }

  lemma CutShorter(t: string, room: nat)
    ensures |t| < room ==> Cut(t, room) == t
    ensures t != "" && |t| >= room ==> |Cut(t, room)| < |t|
  {
  }

  /** The node leaves the buffer: the text before it is longer than half the buffer, so that what
      remains wraps around, and the node would not fit. */
  predicate Overruns(size: nat, len: nat, n: nat) { 2 * len > size && len + n >= size }

  predicate NeverOverruns(size: nat, text: string, ps: seq<Property>) {
    forall i :: 0 <= i < |ps| ==> !Overruns(size, |PutAll(size, text, ps[..i])|, |Node(ps[i])|)
  }

  lemma PutInsideExactly(size: nat, text: string, p: Property)
    requires |text| < size < TWO_32
    ensures |Put(size, text, p)| < size <==> !Overruns(size, |text|, |Node(p)|)
  {
    hide Node;
    Wraps(size, |text|);
  }

  /** What remains when the length has been taken off twice. */
  lemma Wraps(size: nat, len: nat)
    requires len < size < TWO_32
    ensures Remain(size, 2 * len) == if 2 * len <= size then size - 2 * len else TWO_32 + size - 2 * len
  {
    if 2 * len > size {
      DivMod(size - 2 * len, -1, TWO_32 + size - 2 * len);
    }
  }

  /** The text stays inside the buffer if and only if no node overruns it. */
  lemma {:induction false} ContentInsideExactly(size: nat, text: string, ps: seq<Property>)
    requires |text| < size < TWO_32
    ensures |PutAll(size, text, ps)| < size <==> NeverOverruns(size, text, ps)
  {
    hide Node, Put, Overruns, PutAll;
    PutStep(size, text, ps, 0);
    if ps != [] {
      var n := |ps| - 1;
      var init, t := ps[..n], PutAll(size, text, ps[..n]);
      PutStep(size, text, ps, n);
      assert ps[..n + 1] == ps;
      ContentInsideExactly(size, text, init);
      assert forall i :: 0 <= i < n ==> init[..i] == ps[..i] && init[i] == ps[i];
      assert NeverOverruns(size, text, ps) <==> NeverOverruns(size, text, init) && !Overruns(size, |t|, |Node(ps[n])|);
      if |t| < size {
        PutInsideExactly(size, t, ps[n]);
      } else {
        PutGrows(size, t, ps[n]);
      }
    } else {
      assert ps[..0] == ps;
    }
  }

  lemma PutGrows(size: nat, text: string, p: Property)
    ensures |text| <= |Put(size, text, p)| <= |text| + |Node(p)|
  {
    hide Node, Remain;
  }

  /** From half the buffer on that depends on the whole length alone: then nothing is cut either. */
  lemma {:induction false} BeyondHalfExactly(size: nat, text: string, ps: seq<Property>)
    requires |text| < size < 2 * |text| && size < TWO_32
    ensures |PutAll(size, text, ps)| < size <==> |text| + |Nodes(ps)| < size
    ensures |text| + |Nodes(ps)| < size ==> PutAll(size, text, ps) == text + Nodes(ps)
  {
    hide Node, Put;
    if ps != [] {
      var init, last := ps[..|ps| - 1], ps[|ps| - 1];
      var t := PutAll(size, text, init);
      BeyondHalfExactly(size, text, init);
      assert Nodes(ps) == Nodes(init) + Node(last);
      PutGrows(size, t, last);
      if |text| + |Nodes(init)| < size {
        PutInsideExactly(size, t, last);
        if |t| + |Node(last)| < size {
          PutWhole(size, t, last);
        }
      }
    }
  }

  lemma PutWhole(size: nat, text: string, p: Property)
    requires |text| + |Node(p)| < size < 2 * |text| && size < TWO_32
    ensures Put(size, text, p) == text + Node(p)
  {
    hide Node;
    Wraps(size, |text|);
  }

  /** A node of 50 characters behind 60, in a buffer of 100: it is written whole, and 10 of them behind
      the buffer. */
  lemma WritesBehindBuffer(text: string)
    requires |text| == 60
    ensures var p := Property(seq(42, _ => 'a'), Null);
            && |Node(p)| == 50 && Complete(100, 60, [p])
            && PutAll(100, text, [p]) == text + Node(p) && |PutAll(100, text, [p])| == 110
  {
    var p := Property(seq(42, _ => 'a'), Null);
    assert [p][..0] == [];
    assert Nodes([]) == "" && PutAll(100, text, []) == text;
    Wraps(100, 60);
    hide Node;
    assert Nodes([p]) == "" + Node(p);
    CompleteExactly(100, text, [p]);
  }

  /** A text that stays within half the buffer is complete. */
  lemma {:induction false} HalfIsEnough(size: nat, len: nat, ps: seq<Property>)
    requires 2 * (len + |Nodes(ps)|) <= size < TWO_32
    ensures Complete(size, len, ps)
  {
    hide Node, Remain;
    if ps != [] {
      var init, last := ps[..|ps| - 1], ps[|ps| - 1];
      assert Nodes(ps) == Nodes(init) + Node(last);
      HalfIsEnough(size, len, init);
      assert |Node(last)| < size - 2 * (len + |Nodes(init)|);
    }
  }

  /** A node that fits the buffer is cut all the same if and only if it is not shorter than what
      remains after taking the length of the text off twice, short of the wrap. */
  lemma DroppedThoughItFits(p: Property, size: nat, len: nat)
    requires len + |Node(p)| < size < TWO_32
    ensures !Complete(size, len, [p]) <==> 2 * len <= size <= 2 * len + |Node(p)|
  {
    assert [p][..0] == [];
    assert Nodes([]) == "";
    hide Node;
    Wraps(size, len);
  }

  // ----- the finished document -----

  /** What the three steps write when there is room. `ps` are the properties in the order of the
      iteration, which starts at the tail of the list. */
  function Finished(m: Method, ps: seq<Property>, version: int): string {
    var t := Body(m, ps);
    t[..|t| - if Overwrites(m, ps != []) then 1 else 0] + FinalText(m, ps != [], version)
  }

  function Body(m: Method, ps: seq<Property>): (t: string)
    ensures |t| >= 1
  {
    InitText(m, ps != []) + (if m == Get then "" else if m == DeleteAll then "null" else Nodes(Content(m, ps)))
  }

  function MethodProp(m: Method): Property { Property("Method", Str(MethodName(m))) }

  function ReportedProp(m: Method, ps: seq<Property>): Property {
    Property("Reported", Obj(ObjectText(Content(m, ps))))
  }

  /** The members of the state of a document. */
  function StateProps(m: Method, ps: seq<Property>): seq<Property> {
    match m
    case Get => []
    case Update | UpdateAndResetVer | Delete => [ReportedProp(m, ps)]
    case ReplyControlUpdate | ReplyControlDelete =>
      (if ps != [] then [ReportedProp(m, ps)] else []) + [Property("Desired", Null)]
    case DeleteAll => [Property("Reported", Null)]
  }

  /** The members of a document. */
  function DocProps(m: Method, ps: seq<Property>, version: int): seq<Property> {
    if m == Get then [MethodProp(m)]
    else
      [MethodProp(m), Property("State", Obj(ObjectText(StateProps(m, ps)))),
       Property("Version", Int(if m == UpdateAndResetVer then -1 else version))]
  }

  /** The methods that cannot do without properties. */
  predicate NeedsContent(m: Method) { m in {Update, UpdateAndResetVer, Delete} }

  lemma {:induction false} NodesAreFields(ps: seq<Property>)
    requires ps != []
    ensures Nodes(ps) == Fields(ps) + ","
  {
    hide Field;
    var init, last := ps[..|ps| - 1], ps[|ps| - 1];
    if init != [] {
      NodesAreFields(init);
      FieldsSnoc(init, last);
      assert init + [last] == ps;
    }
  }

  lemma {:induction false} FieldsSnoc(init: seq<Property>, last: Property)
    requires init != []
    ensures Fields(init + [last]) == Fields(init) + "," + Field(last)
  {
    hide Field;
    var ps := init + [last];
    assert ps[1..] == init[1..] + [last];
    if |init| > 1 {
      FieldsSnoc(init[1..], last);
    }
  }

  lemma ThreeFields(a: Property, b: Property, c: Property)
    ensures Fields([a]) == Field(a) && Fields([b, c]) == Field(b) + "," + Field(c)
    ensures Fields([a, b, c]) == Field(a) + "," + Field(b) + "," + Field(c)
  {
    hide Field;
    assert [a, b, c][1..] == [b, c] && [b, c][1..] == [c];
  }

  /** The head of a document, as a member. */
  lemma Head(m: Method)
    ensures "{\"Method\":\"" + MethodName(m) + "\"" == "{" + Field(MethodProp(m))
  {
    hide MethodName;
  }

  lemma VersionMember(version: int)
    ensures VersionText(version) == "," + Field(Property("Version", Int(version))) + "}"
  {
    hide Decimal;
    assert ",\"Version\":" == "," + ("\"" + "Version" + "\":");
  }

  lemma ObjectMember(key: string, ps: seq<Property>)
    ensures Field(Property(key, Obj(ObjectText(ps)))) == "\"" + key + "\":{" + Fields(ps) + "}"
  {
    hide Fields;
    assert "\"" + key + "\":" + "{" == "\"" + key + "\":{";
  }

  lemma NullMember(key: string)
    ensures Field(Property(key, Null)) == "\"" + key + "\":null"
  {
  }

  /** A document of three members, from the text of its state. */
  lemma DocumentOf(m: Method, state: seq<Property>, version: int)
    ensures ObjectText([MethodProp(m), Property("State", Obj(ObjectText(state))), Property("Version", Int(version))])
            == "{\"Method\":\"" + MethodName(m) + "\",\"State\":{" + Fields(state) + "}" + VersionText(version)
  {
    var a, b, c := MethodProp(m), Property("State", Obj(ObjectText(state))), Property("Version", Int(version));
    ThreeFields(a, b, c);
    Head(m);
    ObjectMember("State", state);
    VersionMember(version);
    hide Field, Fields, VersionText, MethodName, ObjectText;
    Members([a, b, c], Field(a), Field(b), Field(c));
    var head, state' := "{\"Method\":\"" + MethodName(m), Fields(state);
    assert head + "\"" + "," + ("\"" + "State" + "\":{" + state' + "}") == head + "\",\"State\":{" + state' + "}";
  }

  lemma Members(ps: seq<Property>, a: string, b: string, c: string)
    requires Fields(ps) == a + "," + b + "," + c
    ensures ObjectText(ps) == "{" + a + "," + b + ("," + c + "}")
  {
    hide Fields;
  }

  /** The body, without the comma that is overwritten. */
  lemma Trimmed(m: Method, ps: seq<Property>, version: int)
    requires m != Get && m != DeleteAll && ps != []
    ensures Finished(m, ps, version) == InitText(m, true) + Fields(Content(m, ps)) + FinalText(m, true, version)
  {
    hide Fields, Nodes, InitText, FinalText, Content;
    var c := Content(m, ps);
    NodesAreFields(c);
    var t := Body(m, ps);
    assert t == InitText(m, true) + Fields(c) + ",";
    assert t[..|t| - 1] == InitText(m, true) + Fields(c);
  }

  /** The finished text is the document, for every method and its properties, unless a method that
      needs properties has none. */
  lemma FinishedIsDocument(m: Method, ps: seq<Property>, version: int)
    requires ps != [] || !NeedsContent(m)
    ensures Finished(m, ps, version) == ObjectText(DocProps(m, ps, version))
  {
    match m
    case Get => GetDocument(ps, version);
    case DeleteAll => DeleteAllDocument(ps, version);
    case Update | UpdateAndResetVer | Delete => StateDocument(m, ps, version);
    case ReplyControlUpdate | ReplyControlDelete =>
      if ps == [] {
        EmptyReplyDocument(m, version);
      } else {
        ReplyDocument(m, ps, version);
      }
  }

  lemma GetDocument(ps: seq<Property>, version: int)
    ensures Finished(Get, ps, version) == ObjectText(DocProps(Get, ps, version))
  {
    Head(Get);
    hide Field;
    assert Fields([MethodProp(Get)]) == Field(MethodProp(Get));
    assert Body(Get, ps) == "{\"Method\":\"" + MethodName(Get) + "\"";
  }

  lemma DeleteAllDocument(ps: seq<Property>, version: int)
    ensures Finished(DeleteAll, ps, version) == ObjectText(DocProps(DeleteAll, ps, version))
  {
    hide VersionText, MethodName, Nodes;
    var reported := Property("Reported", Null);
    DocumentOf(DeleteAll, [reported], version);
    NullMember("Reported");
    hide Field;
    assert Fields([reported]) == Field(reported);
    var head, v := "{\"Method\":\"" + MethodName(DeleteAll), VersionText(version);
    NullText(head, v);
  }

  lemma NullText(head: string, v: string)
    ensures head + "\",\"State\":{\"Reported\":" + "null" + ("}" + v)
            == head + "\",\"State\":{" + ("\"" + "Reported" + "\":null") + "}" + v
  {
  }

  lemma StateText(head: string, f: string, v: string)
    ensures head + "\",\"State\":{\"Reported\":{" + f + ("}}" + v)
            == head + "\",\"State\":{" + ("\"Reported\":{" + f + "}") + "}" + v
  {
    var a, b := "\",\"State\":{", "\"Reported\":{";
    assert "\",\"State\":{\"Reported\":{" == a + b;
    assert head + (a + b) + f == head + a + (b + f);
    assert head + a + (b + f) + ("}}" + v) == head + a + (b + f + "}") + "}" + v;
  }

  lemma ReportedMember(m: Method, ps: seq<Property>)
    ensures Field(ReportedProp(m, ps)) == "\"Reported\":{" + Fields(Content(m, ps)) + "}"
    ensures Fields([ReportedProp(m, ps)]) == Field(ReportedProp(m, ps))
  {
    ObjectMember("Reported", Content(m, ps));
    hide ObjectText, Content;
    assert "\"" + "Reported" + "\":{" == "\"Reported\":{";
  }

  lemma StateDocument(m: Method, ps: seq<Property>, version: int)
    requires NeedsContent(m) && ps != []
    ensures Finished(m, ps, version) == ObjectText(DocProps(m, ps, version))
  {
    var f, w := Fields(Content(m, ps)), if m == UpdateAndResetVer then -1 else version;
    var head, v := "{\"Method\":\"" + MethodName(m), VersionText(w);
    Trimmed(m, ps, version);
    DocumentOf(m, [ReportedProp(m, ps)], w);
    ReportedMember(m, ps);
    StateText(head, f, v);
    hide Field, Finished, VersionText, MethodName, ObjectText, Content, Fields, ReportedProp;
    assert InitText(m, true) == head + "\",\"State\":{\"Reported\":{";
    assert FinalText(m, true, version) == "}}" + v;
  }

  lemma ReplyText(head: string, f: string, v: string)
    ensures head + "\",\"State\":{\"Reported\":{" + f + ("},\"Desired\":null}" + v)
            == head + "\",\"State\":{" + (("\"Reported\":{" + f + "}") + "," + "\"Desired\":null") + "}" + v
  {
    var a, b, d := "\",\"State\":{", "\"Reported\":{", "\"Desired\":null";
    assert "\",\"State\":{\"Reported\":{" == a + b;
    assert "},\"Desired\":null}" == "}" + "," + d + "}";
    assert head + (a + b) + f == head + a + (b + f);
    assert head + a + (b + f) + ("}" + "," + d + "}" + v) == head + a + (b + f + "}" + "," + d) + "}" + v;
  }

  lemma ReplyState(m: Method, ps: seq<Property>)
    requires m in {ReplyControlUpdate, ReplyControlDelete} && ps != []
    ensures Fields(StateProps(m, ps)) == ("\"Reported\":{" + Fields(Content(m, ps)) + "}") + "," + "\"Desired\":null"
  {
    var reported, desired := ReportedProp(m, ps), Property("Desired", Null);
    ReportedMember(m, ps);
    NullMember("Desired");
    ThreeFields(desired, reported, desired);
    hide Field, Fields, ReportedProp;
    assert "\"" + "Desired" + "\":null" == "\"Desired\":null";
    assert StateProps(m, ps) == [reported, desired];
  }

  lemma ReplyDocument(m: Method, ps: seq<Property>, version: int)
    requires m in {ReplyControlUpdate, ReplyControlDelete} && ps != []
    ensures Finished(m, ps, version) == ObjectText(DocProps(m, ps, version))
  {
    var head, v := "{\"Method\":\"" + MethodName(m), VersionText(version);
    Trimmed(m, ps, version);
    DocumentOf(m, StateProps(m, ps), version);
    ReplyState(m, ps);
    ReplyText(head, Fields(Content(m, ps)), v);
    hide Field, Finished, VersionText, MethodName, ObjectText, Content, Fields, StateProps;
    assert InitText(m, true) == head + "\",\"State\":{\"Reported\":{";
    assert FinalText(m, true, version) == "},\"Desired\":null}" + v;
  }

  lemma EmptyReplyDocument(m: Method, version: int)
    requires m in {ReplyControlUpdate, ReplyControlDelete}
    ensures Finished(m, [], version) == ObjectText(DocProps(m, [], version))
  {
    var desired := Property("Desired", Null);
    DocumentOf(m, [desired], version);
    NullMember("Desired");
    hide Field, VersionText, MethodName, ObjectText;
    assert Fields([desired]) == Field(desired);
    var head, v := "{\"Method\":\"" + MethodName(m), VersionText(version);
    assert Body(m, []) == head + "\",\"State\":{";
    assert head + "\",\"State\":{" + ("\"Desired\":null}" + v)
        == head + "\",\"State\":{" + ("\"" + "Desired" + "\":null") + "}" + v;
    assert [] + [desired] == [desired];
  }

  // ----- what a document says -----

  predicate AllNestable(ps: seq<Property>) { forall p :: p in ps ==> Nestable(p) }

  lemma ContentIsNestable(m: Method, ps: seq<Property>)
    requires AllNestable(ps)
    ensures AllNestable(Content(m, ps))
  {
    forall p | p in Content(m, ps)
      ensures Nestable(p)
    {
      var i :| 0 <= i < |ps| && p == Content(m, ps)[i];
      assert ps[i] in ps;
    }
  }

  lemma NestedObject(key: string, ps: seq<Property>)
    requires AllNestable(ps) && '"' !in key && '{' !in key && '}' !in key
    ensures Nestable(Property(key, Obj(ObjectText(ps))))
  {
    FieldsAreLevel(ps);
    NoBraces(key);
  }

  lemma PlainMember(p: Property)
    requires '"' !in p.key && '{' !in p.key && '}' !in p.key && !p.value.Obj?
    requires p.value.Str? ==> '"' !in p.value.text && '{' !in p.value.text && '}' !in p.value.text
    ensures Nestable(p)
  {
    NoBraces(p.key);
    if p.value.Str? {
      NoBraces(p.value.text);
    }
  }

  lemma StateIsNestable(m: Method, ps: seq<Property>)
    requires AllNestable(ps)
    ensures AllNestable(StateProps(m, ps))
  {
    ContentIsNestable(m, ps);
    NestedObject("Reported", Content(m, ps));
    PlainMember(Property("Reported", Null));
    PlainMember(Property("Desired", Null));
    hide ObjectText, Nestable, Content;
  }

  lemma MethodIsNestable(m: Method)
    ensures Nestable(MethodProp(m))
  {
    PlainMember(MethodProp(m));
  }

  lemma VersionIsNestable(version: int)
    ensures Nestable(Property("Version", Int(version)))
  {
    PlainMember(Property("Version", Int(version)));
  }

  lemma DocIsNestable(m: Method, ps: seq<Property>, version: int)
    requires AllNestable(ps)
    ensures AllNestable(DocProps(m, ps, version))
  {
    hide ObjectText, Nestable, StateProps, MethodProp;
    StateIsNestable(m, ps);
    NestedObject("State", StateProps(m, ps));
    MethodIsNestable(m);
    VersionIsNestable(version);
    VersionIsNestable(-1);
  }

  lemma NestableIsPrintable(ps: seq<Property>)
    requires AllNestable(ps)
    ensures AllPrintable(ps)
  {
  }

  /** The finished document of a method with the properties it needs is bracket-balanced, and the
      scanner finds in it the members, in its state the reported object, and in that object the
      properties, in order. */
  lemma DocumentIsUnderstood(m: Method, ps: seq<Property>, version: int)
    requires AllNestable(ps) && (ps != [] || !NeedsContent(m))
    ensures IsObject(Finished(m, ps, version))
    ensures Pairs(Finished(m, ps, version)) == Reported(DocProps(m, ps, version))
    ensures Pairs(ObjectText(StateProps(m, ps))) == Reported(StateProps(m, ps))
    ensures Pairs(ObjectText(Content(m, ps))) == Reported(Content(m, ps))
  {
    hide Finished, ObjectText, Pairs, Reported, DocProps, StateProps, Content, AllPrintable, AllNestable;
    FinishedIsDocument(m, ps, version);
    DocIsNestable(m, ps, version);
    StateIsNestable(m, ps);
    ContentIsNestable(m, ps);
    BalancedObject(DocProps(m, ps, version));
    NestableIsPrintable(DocProps(m, ps, version));
    NestableIsPrintable(StateProps(m, ps));
    NestableIsPrintable(Content(m, ps));
    PrintedIsFound(DocProps(m, ps, version));
    PrintedIsFound(StateProps(m, ps));
    PrintedIsFound(Content(m, ps));
  }

  /** The document in figures: which method a request names, its state, and the version, -1 to reset it. */
  lemma DocumentSays(m: Method, ps: seq<Property>, version: int)
    requires AllNestable(ps) && (ps != [] || !NeedsContent(m))
    ensures var pairs := Pairs(Finished(m, ps, version));
            var name := match m
                        case Get => "get"
                        case Update | UpdateAndResetVer | ReplyControlUpdate => "update"
                        case Delete | DeleteAll | ReplyControlDelete => "delete";
            && |pairs| == (if m == Get then 1 else 3) && pairs[0] == Pair("Method", name, JsString)
            && (m != Get ==>
                  && pairs[1].key == "State" && pairs[1].kind == JsObject
                  && pairs[2] == Pair("Version", Decimal(if m == UpdateAndResetVer then -1 else version), JsNumber))
  {
    hide Finished, Pairs, Reported, DocProps, AllNestable, ObjectText;
    DocumentIsUnderstood(m, ps, version);
    var state := Property("State", Obj(ObjectText(StateProps(m, ps))));
    var v := Property("Version", Int(if m == UpdateAndResetVer then -1 else version));
    DocPropsAre(m, ps, version);
    if m == Get {
      ReportedOnly(MethodProp(m));
    } else {
      ReportedThree(MethodProp(m), state, v);
      SomeText(StateProps(m, ps));
    }
  }

  lemma DocPropsAre(m: Method, ps: seq<Property>, version: int)
    ensures DocProps(m, ps, version)
            == if m == Get then [MethodProp(m)]
               else [MethodProp(m), Property("State", Obj(ObjectText(StateProps(m, ps)))),
                     Property("Version", Int(if m == UpdateAndResetVer then -1 else version))]
  {
    hide ObjectText;
  }

  lemma SomeText(ps: seq<Property>)
    ensures ObjectText(ps) != ""
  {
  }

  lemma ReportedOnly(p: Property)
    ensures Reported([p]) == ReportedOne(p)
  {
    assert [p][1..] == [];
    assert Reported([]) == [];
  }

  lemma ReportedThree(p: Property, q: Property, r: Property)
    ensures Reported([p, q, r]) == ReportedOne(p) + ReportedOne(q) + ReportedOne(r)
  {
    hide ReportedOne;
    assert [p, q, r][1..] == [q, r] && [q, r][1..] == [r];
    ReportedOnly(r);
  }

  predicate StateIs(m: Method, nonEmpty: bool, state: seq<Pair>) {
    var reported := state != [] && state[0].key == "Reported" && state[0].kind == JsObject;
    match m
    case Get => true
    case DeleteAll => state == [Pair("Reported", "null", JsNull)]
    case Update | UpdateAndResetVer | Delete => |state| == 1 && reported
    case ReplyControlUpdate | ReplyControlDelete =>
      if nonEmpty then |state| == 2 && reported && state[1] == Pair("Desired", "null", JsNull)
      else state == [Pair("Desired", "null", JsNull)]
  }

  /** The state of a document: what is reported, with null for every property that is deleted, and null
      for what is desired in a reply to a control message. */
  lemma StateSays(m: Method, ps: seq<Property>)
    requires AllNestable(ps) && (ps != [] || !NeedsContent(m)) && m != Get
    ensures StateIs(m, ps != [], Pairs(ObjectText(StateProps(m, ps))))
  {
    hide Finished, Pairs, Reported, ObjectText, AllNestable, Content;
    DocumentIsUnderstood(m, ps, 0);
    SomeText(Content(m, ps));
    var reported := ReportedProp(m, ps);
    ReportedOnly(reported);
    ReportedOnly(Property("Desired", Null));
    ReportedOnly(Property("Reported", Null));
    ReportedTwo(reported, Property("Desired", Null));
    assert [] + [Property("Desired", Null)] == [Property("Desired", Null)];
    assert [reported] + [Property("Desired", Null)] == [reported, Property("Desired", Null)];
  }

  lemma ReportedTwo(p: Property, q: Property)
    ensures Reported([p, q]) == ReportedOne(p) + ReportedOne(q)
  {
    hide ReportedOne;
    assert [p, q][1..] == [q];
    ReportedOnly(q);
  }

  lemma ContentSays(m: Method, ps: seq<Property>, i: nat)
    requires i < |ps|
    ensures Content(m, ps)[i].key == ps[i].key
    ensures Content(m, ps)[i].value == if m == Delete || m == ReplyControlDelete then Null else ps[i].value
  {
  }

  lemma BalancedObject(ps: seq<Property>)
    requires AllNestable(ps)
    ensures IsObject(ObjectText(ps))
  {
    FieldsAreLevel(ps);
  }

  /** Without properties the methods that need them overwrite a brace: the document closes more than
      it has opened. */
  lemma EmptyIsUnbalanced(m: Method, version: int)
    requires NeedsContent(m)
    ensures !Level(Finished(m, [], version))
  {
    hide *;
    var v := EndOfEmpty(m, version);
    var cut := Body(m, [])[..|Body(m, [])| - 1];
    CutDepth(m);
    TwoClosed();
    WalkConcat(cut, "}}", 0);
    WalkConcat(cut + "}}", v, 0);
    NotLevel(Finished(m, [], version));
  }

  lemma EndOfEmpty(m: Method, version: int) returns (v: string)
    requires NeedsContent(m)
    ensures Finished(m, [], version) == Body(m, [])[..|Body(m, [])| - 1] + "}}" + v && Walk(v, 0) == None
  {
    v := if m == UpdateAndResetVer then VersionText(-1) else VersionText(version);
    VersionCloses(version);
    VersionCloses(-1);
    hide VersionText, Walk, Body;
  }

  lemma NotLevel(s: string)
    ensures Walk(s, 0) != Some(0) ==> !Level(s)
  {
  }

  lemma TwoClosed()
    ensures Walk("}}", 1) == None && Walk("}}", 2) == Some(0)
  {
    assert "}}"[1..] == "}" && "}"[1..] == "";
    assert Walk("}", 0) == None && Walk("}", 1) == Walk("", 0) == Some(0);
  }

  lemma VersionCloses(version: int)
    ensures Walk(VersionText(version), 0) == None
  {
    var a := ",\"Version\":" + Decimal(version);
    NoBraces(a);
    WalkConcat(a, "}", 0);
    assert Walk("}", 0) == None;
  }

  /** What stands before and behind the second brace of a document. */
  function Opening(m: Method): string { "\"Method\":\"" + MethodName(m) + "\",\"State\":" }

  function ReportedKey(): string { "\"Reported\":" }

  lemma CutText(m: Method)
    requires NeedsContent(m)
    ensures var t := Body(m, []);
            t[..|t| - 1] == if m == Delete then "{" + Opening(m) else "{" + Opening(m) + "{" + ReportedKey()
  {
    OpeningSplit(m);
    hide InitText, Opening, ReportedKey;
    var t := Body(m, []);
    assert t == InitText(m, false) + "";
  }

  lemma OpeningSplit(m: Method)
    requires NeedsContent(m)
    ensures InitText(m, false) == "{" + Opening(m) + (if m == Delete then "" else "{" + ReportedKey()) + "{"
  {
    ShortOpening(MethodName(m));
    LongOpening(MethodName(m));
    hide MethodName;
  }

  lemma ShortOpening(n: string)
    ensures "{\"Method\":\"" + n + "\",\"State\":{" == "{" + ("\"Method\":\"" + n + "\",\"State\":") + "" + "{"
  {
  }

  lemma LongOpening(n: string)
    ensures "{\"Method\":\"" + n + "\",\"State\":{\"Reported\":{"
              == "{" + ("\"Method\":\"" + n + "\",\"State\":") + ("{" + "\"Reported\":") + "{"
  {
  }

  lemma OpeningIsLevel(m: Method)
    ensures Level(Opening(m)) && Level(ReportedKey())
  {
    NoBraces("\"Method\":\"");
    NoBraces(MethodName(m));
    NoBraces("\",\"State\":");
    LevelConcat("\"Method\":\"", MethodName(m));
    LevelConcat("\"Method\":\"" + MethodName(m), "\",\"State\":");
    NoBraces(ReportedKey());
  }

  /** How deep the body of a document without properties is where its last character is overwritten. */
  lemma CutDepth(m: Method)
    requires NeedsContent(m)
    ensures var t := Body(m, []); Walk(t[..|t| - 1], 0) == Some(if m == Delete then 1 else 2)
  {
    hide *;
    CutText(m);
    OpeningIsLevel(m);
    WalkNothing();
    Opened("", Opening(m), 0);
    NothingBefore(Opening(m));
    if m != Delete {
      Opened("{" + Opening(m), ReportedKey(), 1);
    }
  }

  lemma NothingBefore(s: string)
    ensures "" + "{" + s == "{" + s
  {
  }

  lemma WalkNothing()
    ensures Walk("", 0) == Some(0)
  {
  }

  /** A brace and a level text lead one deeper. */
  lemma Opened(before: string, s: string, depth: nat)
    requires Walk(before, 0) == Some(depth) && Level(s)
    ensures Walk(before + "{" + s, 0) == Some(depth + 1)
  {
    WalkConcat(before, "{", 0);
    WalkConcat(before + "{", s, 0);
    WalkDeeper(s, 0, depth + 1);
    assert Walk("{", depth) == Walk("", depth + 1);
  }

  /** A document is balanced exactly when a method that needs properties has some. */
  lemma BalancedExactly(m: Method, ps: seq<Property>, version: int)
    requires AllNestable(ps)
    ensures Level(Finished(m, ps, version)) <==> ps != [] || !NeedsContent(m)
  {
    hide Finished, Level, IsObject;
    if ps != [] || !NeedsContent(m) {
      DocumentIsUnderstood(m, ps, version);
      ObjectIsLevel(Finished(m, ps, version));
    } else {
      EmptyIsUnbalanced(m, version);
    }
  }

  /** The three steps in a buffer of twice the body: the finished document. */
  method Build(doc: Document, m: Method, ps: seq<Property>, version: int) returns (ret: int)
    requires 2 * |Body(m, ps)| <= doc.size < TWO_32 && |Finished(m, ps, version)| + 1 < doc.size
    modifies doc
    ensures ret == SUCCESS_RET && doc.text == Finished(m, ps, version)
  {
    hide InitText, FinalText, Content, Nodes, Complete, Remain, Cut, PutAll, NeverOverruns;
    CutShorter(InitText(m, ps != []), doc.size);
    CutShorter(FinalText(m, ps != [], version), Remain(doc.size, |Body(m, ps)|));
    CutShorter("null", Remain(doc.size, |InitText(m, ps != [])|));
    doc.Init(m, ps != []);
    if m != Get && m != DeleteAll {
      HalfIsEnough(doc.size, |doc.text|, Content(m, ps));
    }
    ret := doc.SetContent(m, ps);
    assert doc.text == Body(m, ps);
    ret := doc.Finalize(m, ps != [], version);
  }
}
