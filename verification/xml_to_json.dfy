/** `FallbackXMLParser.xmlToJson`: turning a parsed XML element into the
    plain JavaScript value the TCX parser walks. The DOM is abstracted to a
    tree of nodes; parsing the text into that tree is not modelled. */
module XmlToJson {
  import opened Wrappers
  import opened Strings
  import OrderedMap
  import opened Json

  /** A DOM node: an element with its attributes (in document order) and
      child nodes, a text node (text and CDATA), or any other node
      (comments, processing instructions), which contributes nothing. */
  datatype Node =
    | Element(name: string, attrs: seq<(string, string)>, children: seq<Node>)
    | Text(text: string)
    | Other

  /** `textContent` of an element with no element children: its text nodes
      joined. */
  function TextOf(children: seq<Node>): string {
    if children == [] then []
    else (if children[0].Text? then children[0].text else []) + TextOf(children[1..])
  }

  predicate HasElementChild(children: seq<Node>) {
    exists i :: 0 <= i < |children| && children[i].Element?
  }

  /** The attribute object: each attribute stored under its name with an
      `@_` prefix, in document order. */
  function AttrFields(attrs: seq<(string, string)>): (r: OrderedMap.Entries<string, JValue>)
    ensures forall k :: k in OrderedMap.Keys(r) ==> StartsWith(k, "@_")
    decreases |attrs|
  {
    if attrs == [] then []
    else
      var r := OrderedMap.Set(AttrFields(attrs[..|attrs| - 1]), "@_" + attrs[|attrs| - 1].0, JString(attrs[|attrs| - 1].1));
      assert StartsWith("@_" + attrs[|attrs| - 1].0, "@_");
      r
  }

  /** The value stored under a child's name when `prev` is already there:
      a truthy previous value becomes (or is extended to) an array; a
      missing or falsy one is overwritten. */
  function Push(prev: Option<JValue>, value: JValue): (r: JValue)
    ensures Truthy(prev) && prev.value.JArray? ==> r == JArray(prev.value.items + [value])
    ensures Truthy(prev) && !prev.value.JArray? ==> r == JArray([prev.value, value])
    ensures !Truthy(prev) ==> r == value
  {
    if Truthy(prev) then
      if prev.value.JArray? then JArray(prev.value.items + [value]) else JArray([prev.value, value])
    else value
  }

  function AddChild(result: OrderedMap.Entries<string, JValue>, name: string, value: JValue)
    : OrderedMap.Entries<string, JValue>
  {
    OrderedMap.Set(result, name, Push(OrderedMap.Get(result, name), value))
  }

  /** `xmlToJson(e)` for an element. */
  function ToJson(e: Node): (v: JValue)
    requires e.Element?
    // the converter never yields an array, nor a falsy value
    ensures Truthy(Some(v)) && !v.JArray?
    decreases e, 1
  {
    var result := AttrFields(e.attrs);
    if !HasElementChild(e.children) then
      var text := Trim(TextOf(e.children));
      if text != "" then JString(text) else JObject(result)
    else
      JObject(AddChildren(e, 0, result))
  }

  /** The loop over element children from index `i` on. */
  function AddChildren(e: Node, i: nat, result: OrderedMap.Entries<string, JValue>)
    : OrderedMap.Entries<string, JValue>
    requires e.Element? && i <= |e.children|
    decreases e, 0, |e.children| - i
  {
    if i == |e.children| then result
    else if e.children[i].Element? then
      AddChildren(e, i + 1, AddChild(result, e.children[i].name, ToJson(e.children[i])))
    else
      AddChildren(e, i + 1, result)
  }

  // ---------------------------------------------------------------------
  // Independent description of the result
  // ---------------------------------------------------------------------

  /** The converted element children named `n`, from index `i` on, in
      document order. */
  function ValuesNamed(e: Node, i: nat, n: string): (vs: seq<JValue>)
    requires e.Element? && i <= |e.children|
    ensures forall k :: 0 <= k < |vs| ==> Truthy(Some(vs[k])) && !vs[k].JArray?
    decreases |e.children| - i
  {
    if i == |e.children| then []
    else if e.children[i].Element? && e.children[i].name == n then
      [ToJson(e.children[i])] + ValuesNamed(e, i + 1, n)
    else ValuesNamed(e, i + 1, n)
  }

  /** What a property holds after a list of values was added to it: none
      leaves it missing, one is stored as itself, several as an array. */
  function Collapse(vs: seq<JValue>): (r: Option<JValue>)
    ensures |vs| == 0 <==> r.None?
    ensures |vs| == 1 ==> r == Some(vs[0])
    ensures |vs| >= 2 ==> r == Some(JArray(vs))
  {
    if |vs| == 0 then None else if |vs| == 1 then Some(vs[0]) else Some(JArray(vs))
  }

  /** `Push` applied to each value in turn. */
  function PushAll(prev: Option<JValue>, vs: seq<JValue>): Option<JValue>
    decreases |vs|
  {
    if vs == [] then prev else PushAll(Some(Push(prev, vs[0])), vs[1..])
  }

  /** The loop touches property `n` exactly once per child named `n`. */
  lemma {:induction false} AddChildrenGet(e: Node, i: nat, result: OrderedMap.Entries<string, JValue>, n: string)
    requires e.Element? && i <= |e.children|
    ensures OrderedMap.Get(AddChildren(e, i, result), n) == PushAll(OrderedMap.Get(result, n), ValuesNamed(e, i, n))
    decreases |e.children| - i
  {
    if i < |e.children| {
      var c := e.children[i];
      if c.Element? {
        var next := AddChild(result, c.name, ToJson(c));
        AddChildrenGet(e, i + 1, next, n);
        if c.name == n {
          assert ValuesNamed(e, i, n) == [ToJson(c)] + ValuesNamed(e, i + 1, n);
          assert OrderedMap.Get(next, n) == Some(Push(OrderedMap.Get(result, n), ToJson(c)));
        } else {
          assert OrderedMap.Get(next, n) == OrderedMap.Get(result, n);
        }
      } else {
        AddChildrenGet(e, i + 1, result, n);
      }
    }
  }

  /** Pushing onto an array appends. */
  lemma {:induction false} PushAllOntoArray(items: seq<JValue>, vs: seq<JValue>)
    ensures PushAll(Some(JArray(items)), vs) == Some(JArray(items + vs))
    decreases |vs|
  {
    if vs != [] {
      PushAllOntoArray(items + [vs[0]], vs[1..]);
      assert items + [vs[0]] + vs[1..] == items + vs;
    } else {
      assert items + vs == items;
    }
  }

  /** Pushing truthy, non-array values onto nothing collapses them. */
  lemma PushAllCollapse(vs: seq<JValue>)
    requires forall k :: 0 <= k < |vs| ==> Truthy(Some(vs[k])) && !vs[k].JArray?
    ensures PushAll(None, vs) == Collapse(vs)
  {
    if |vs| == 1 {
      assert PushAll(None, vs) == PushAll(Some(vs[0]), []);
    } else if |vs| >= 2 {
      assert PushAll(None, vs) == PushAll(Some(JArray([vs[0], vs[1]])), vs[2..]);
      PushAllOntoArray([vs[0], vs[1]], vs[2..]);
      assert [vs[0], vs[1]] + vs[2..] == vs;
    }
  }

  /** Children of an element: for every name that is not an attribute key,
      the converted object holds nothing when no child has that name, the
      child's value when one does, and all of their values in document
      order when several do. */
  lemma ChildrenCollapse(e: Node, n: string)
    requires e.Element? && HasElementChild(e.children)
    requires !StartsWith(n, "@_")
    ensures ToJson(e).JObject?
    ensures OrderedMap.Get(ToJson(e).fields, n) == Collapse(ValuesNamed(e, 0, n))
  {
    AddChildrenGet(e, 0, AttrFields(e.attrs), n);
    assert n !in OrderedMap.Keys(AttrFields(e.attrs));
    PushAllCollapse(ValuesNamed(e, 0, n));
  }

  // ---------------------------------------------------------------------
  // Attributes and leaf text
  // ---------------------------------------------------------------------

  predicate DistinctNames(attrs: seq<(string, string)>) {
    forall i, j :: 0 <= i < j < |attrs| ==> attrs[i].0 != attrs[j].0
  }

  lemma {:induction false} AttrFieldsLookup(attrs: seq<(string, string)>, k: nat)
    requires DistinctNames(attrs) && k < |attrs|
    ensures OrderedMap.Get(AttrFields(attrs), "@_" + attrs[k].0) == Some(JString(attrs[k].1))
    decreases |attrs|
  {
    var last := |attrs| - 1;
    if k < last {
      assert attrs[k].0 != attrs[last].0;
      assert ("@_" + attrs[k].0)[2..] == attrs[k].0;
      assert ("@_" + attrs[last].0)[2..] == attrs[last].0;
      AttrFieldsLookup(attrs[..last], k);
    }
  }

  /** No child carries the name: nothing is collected under it. */
  lemma {:induction false} NoValuesNamed(e: Node, i: nat, n: string)
    requires e.Element? && i <= |e.children|
    requires forall j :: i <= j < |e.children| && e.children[j].Element? ==> e.children[j].name != n
    ensures ValuesNamed(e, i, n) == []
    decreases |e.children| - i
  {
    if i < |e.children| {
      NoValuesNamed(e, i + 1, n);
    }
  }

  /** Each attribute appears as `@_name` with its value whenever the result
      is an object, as long as no child element carries that same key. */
  lemma AttributesPrefixed(e: Node, k: nat)
    requires e.Element? && DistinctNames(e.attrs) && k < |e.attrs|
    requires forall j :: 0 <= j < |e.children| && e.children[j].Element? ==> e.children[j].name != "@_" + e.attrs[k].0
    ensures ToJson(e).JObject? ==>
      OrderedMap.Get(ToJson(e).fields, "@_" + e.attrs[k].0) == Some(JString(e.attrs[k].1))
  {
    AttrFieldsLookup(e.attrs, k);
    if HasElementChild(e.children) {
      AddChildrenGet(e, 0, AttrFields(e.attrs), "@_" + e.attrs[k].0);
      NoValuesNamed(e, 0, "@_" + e.attrs[k].0);
    }
  }

  /** An element without element children becomes its trimmed text when
      that is not blank — its attributes are then dropped — and its
      attribute object when the text is blank. */
  lemma LeafValue(e: Node)
    requires e.Element? && !HasElementChild(e.children)
    ensures (exists k :: 0 <= k < |TextOf(e.children)| && !IsJsWhitespace(TextOf(e.children)[k])) ==>
      ToJson(e).JString? && ToJson(e).s == Trim(TextOf(e.children))
    ensures (forall k :: 0 <= k < |TextOf(e.children)| ==> IsJsWhitespace(TextOf(e.children)[k])) ==>
      ToJson(e).JObject? && forall key :: key in OrderedMap.Keys(ToJson(e).fields) ==> StartsWith(key, "@_")
  {
  }
}
