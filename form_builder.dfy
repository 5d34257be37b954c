/**
 * The form builder page: the ordered list of form elements the user assembles by
 * dragging items from the palette, the selected element, the form title, and the
 * request that "Save Form" sends to the forms API.
 */
module FormBuilder {
  import opened Wrappers
  import opened Json
  import JsString
  import ArrayMove

  /**
   * One field of the form being built: a timestamp id and the palette label that picks its
   * widget (the source's `label`, a reserved word in Dafny).
   */
  datatype Element = Element(id: int, kind: string)

  predicate HasId(s: seq<Element>, id: int) {
    exists k | 0 <= k < |s| :: s[k].id == id
  }

  predicate UniqueIds(s: seq<Element>) {
    forall i, j | 0 <= i < j < |s| :: s[i].id != s[j].id
  }

  /** How many elements of `s` carry the id `id`. */
  function CountId(s: seq<Element>, id: int): nat {
    if s == [] then 0 else (if s[0].id == id then 1 else 0) + CountId(s[1..], id)
  }

  /** `r` is `s` with some elements left out, the others in their original order. */
  predicate IsSubsequence(r: seq<Element>, s: seq<Element>)
    decreases |s|
  {
    || r == []
    || (s != [] && ((r[0] == s[0] && IsSubsequence(r[1..], s[1..])) || IsSubsequence(r, s[1..])))
  }

  /**
   * `s.filter(e => e.id !== id)`: every element with the id is gone, every other
   * element stays as often as it was there, and the survivors keep their order.
   */
  function Without(s: seq<Element>, id: int): (r: seq<Element>)
    ensures forall e | e in r :: e.id != id
    ensures forall e :: multiset(r)[e] == if e.id == id then 0 else multiset(s)[e]
    ensures IsSubsequence(r, s)
  {
    if s == [] then []
    else
      var rest := Without(s[1..], id);
      assert s == [s[0]] + s[1..];
      if s[0].id == id then
        rest
      else
        assert ([s[0]] + rest)[1..] == rest;
        [s[0]] + rest
  }

  lemma {:induction false} WithoutLength(s: seq<Element>, id: int)
    ensures |Without(s, id)| == |s| - CountId(s, id)
  {
    if s != [] {
      WithoutLength(s[1..], id);
    }
  }

  lemma HasIdCons(s: seq<Element>, id: int)
    requires s != []
    ensures HasId(s, id) <==> s[0].id == id || HasId(s[1..], id)
  {
    if HasId(s, id) && s[0].id != id {
      var k :| 0 <= k < |s| && s[k].id == id;
      assert s[1..][k - 1].id == id;
    }
    if HasId(s[1..], id) {
      var k :| 0 <= k < |s[1..]| && s[1..][k].id == id;
      assert s[k + 1].id == id;
    }
  }

  lemma {:induction false} CountIdZero(s: seq<Element>, id: int)
    ensures CountId(s, id) == 0 <==> !HasId(s, id)
  {
    if s != [] {
      CountIdZero(s[1..], id);
      HasIdCons(s, id);
    }
  }

  /** Deleting an id that no element carries leaves the list as it was. */
  lemma {:induction false} WithoutAbsent(s: seq<Element>, id: int)
    requires !HasId(s, id)
    ensures Without(s, id) == s
  {
    if s != [] {
      HasIdCons(s, id);
      WithoutAbsent(s[1..], id);
      assert s == [s[0]] + s[1..];
    }
  }

  lemma {:induction false} CountIdUnique(s: seq<Element>, i: nat)
    requires UniqueIds(s) && i < |s|
    ensures CountId(s, s[i].id) == 1
  {
    var id := s[i].id;
    if i == 0 {
      assert forall k | 0 <= k < |s| - 1 :: s[1..][k].id == s[k + 1].id != id;
      CountIdZero(s[1..], id);
    } else {
      assert s[1..][i - 1] == s[i];
      CountIdUnique(s[1..], i - 1);
    }
  }

  /** When ids are unique, deleting the id of an element removes exactly that one element. */
  lemma WithoutUnique(s: seq<Element>, i: nat)
    requires UniqueIds(s) && i < |s|
    ensures |Without(s, s[i].id)| == |s| - 1
    ensures s[i] !in Without(s, s[i].id)
  {
    CountIdUnique(s, i);
    WithoutLength(s, s[i].id);
  }

  /** Line 100 of the page: a list item is highlighted exactly when its id is the selection. */
  predicate IsHighlighted(e: Element, selected: Option<int>) {
    selected == Some(e.id)
  }

  /** After clicking the item at `i` of a list with unique ids, that item and no other is highlighted. */
  lemma ClickHighlightsOne(s: seq<Element>, i: nat)
    requires UniqueIds(s) && i < |s|
    ensures forall k | 0 <= k < |s| :: IsHighlighted(s[k], Some(s[i].id)) <==> k == i
  {
  }

  /** The JSON body `{ title, elements }` that "Save Form" posts. */
  datatype SaveRequest = SaveRequest(title: string, elements: seq<Element>)

  /**
   * The check at the top of the save handler: a title that is blank after trimming sends
   * nothing; otherwise the request carries the trimmed title and the list in its current order.
   */
  function SaveRequestFor(title: string, elements: seq<Element>): (r: Option<SaveRequest>)
    ensures r.None? <==> JsString.AllWhitespace(title)
    ensures r.Some? ==> r.value.title != [] && r.value.title == JsString.Trim(title)
    ensures r.Some? ==> r.value.elements == elements
  {
    var t := JsString.Trim(title);
    if t == [] then None else Some(SaveRequest(t, elements))
  }

  /** `JSON.stringify` of one element. */
  function ElementJson(e: Element): Json {
    JObj(map["id" := JNum(e.id), "label" := JStr(e.kind)])
  }

  /** `JSON.stringify` of the element list: an array of `{ id, label }` objects in list order. */
  function ElementsJson(s: seq<Element>): (j: Json)
    ensures j.JArr? && |j.items| == |s|
    ensures forall k | 0 <= k < |s| :: j.items[k] == ElementJson(s[k])
  {
    JArr(seq(|s|, k requires 0 <= k < |s| => ElementJson(s[k])))
  }

  /** A strict decoder of one stored element: an object with a numeric `id` and a string `label`. */
  function ElementOf(j: Json): Option<Element> {
    if j.JObj? && "id" in j.fields && "label" in j.fields
       && j.fields["id"].JNum? && j.fields["label"].JStr?
    then Some(Element(j.fields["id"].n, j.fields["label"].s))
    else None
  }

  /** A strict decoder of the stored array; `None` when some item is not an element. */
  function ElementsOf(items: seq<Json>): (r: Option<seq<Element>>)
    ensures r.Some? ==> |r.value| == |items|
  {
    if items == [] then Some([])
    else
      match (ElementOf(items[0]), ElementsOf(items[1..]))
      case (Some(e), Some(rest)) => Some([e] + rest)
      case _ => None
  }

  /** What is stored for a save reads back as the same elements, in the same order. */
  lemma {:induction false} ElementsRoundTrip(s: seq<Element>)
    ensures ElementsOf(ElementsJson(s).items) == Some(s)
  {
    var items := ElementsJson(s).items;
    if s != [] {
      assert items[1..] == ElementsJson(s[1..]).items;
      ElementsRoundTrip(s[1..]);
      assert ElementOf(items[0]) == Some(s[0]);
      assert s == [s[0]] + s[1..];
    }
  }

  /** The request body as `JSON.stringify` writes it and the forms API parses it. */
  function RequestJson(req: SaveRequest): (j: Json)
    ensures j.JObj? && j.fields.Keys == {"title", "elements"}
    ensures Prop(j, "title") == Some(JStr(req.title))
    ensures Prop(j, "elements") == Some(ElementsJson(req.elements))
  {
    JObj(map["title" := JStr(req.title), "elements" := ElementsJson(req.elements)])
  }

  /** What the page does once the forms API has answered. */
  datatype SaveOutcome =
    | Navigated
      /** an alert; `None` when the message is the engine's own (a body that is not JSON, or `null`) */
    | Alerted(message: Option<string>)

  /** `data.error || 'Failed to save form'`, as the message of the thrown Error. */
  function ErrorMessage(data: Json): (r: string)
    requires !data.JNull?
    ensures !Truthy(Prop(data, "error")) ==> r == "Failed to save form"
    ensures Truthy(Prop(data, "error")) ==> r == ToStr(Prop(data, "error").value)
    ensures forall e | Prop(data, "error") == Some(JStr(e)) && e != "" :: r == e
  {
    var e := Prop(data, "error");
    if Truthy(e) then ToStr(e.value) else "Failed to save form"
  }

  /**
   * Handling of the response to the save request: only `response.ok` together with a
   * truthy `data.success` navigates to the forms list; every other answer is an alert.
   * `data` is `None` when the body is not JSON.
   */
  function SaveOutcomeOf(ok: bool, data: Option<Json>): (r: SaveOutcome)
    ensures r.Navigated? <==> ok && data.Some? && !data.value.JNull? && Truthy(Prop(data.value, "success"))
    ensures r.Alerted? && data.Some? && !data.value.JNull? ==> r.message == Some(ErrorMessage(data.value))
  {
    match data
    case None => Alerted(None)
    case Some(d) =>
      if d.JNull? then Alerted(None)
      else if !ok || !Truthy(Prop(d, "success")) then Alerted(Some(ErrorMessage(d)))
      else Navigated
  }

  /**
   * The state of the builder page: the element list and the selection of `DroppableArea`,
   * and the title of `FormBuilderPage`. Every selection names an element of the list.
   */
  class Builder {
    var elements: seq<Element>
    var selected: Option<int>
    var title: string

    ghost predicate Valid()
      reads this
    {
      selected.Some? ==> HasId(elements, selected.value)
    }

    /** The page starts with the given elements (none on the builder page), no selection and no title. */
    constructor (initial: seq<Element>)
      ensures Valid()
      ensures elements == initial && selected == None && title == ""
    {
      elements := initial;
      selected := None;
      title := "";
    }

    /** Typing in the title field. */
    method SetTitle(t: string)
      requires Valid()
      modifies this
      ensures Valid()
      ensures title == t && elements == old(elements) && selected == old(selected)
    {
      title := t;
    }

    /** A palette item dropped on the form: `{ id: Date.now(), label: kind }` goes at the end. */
    method Drop(id: int, kind: string)
      requires Valid()
      modifies this
      ensures Valid()
      ensures elements == old(elements) + [Element(id, kind)]
      ensures selected == old(selected) && title == old(title)
    {
      ghost var before := elements;
      elements := elements + [Element(id, kind)];
      if selected.Some? {
        ghost var k :| 0 <= k < |before| && before[k].id == selected.value;
        assert elements[k] == before[k];
      }
    }

    /**
     * "Delete Selected": with no selection nothing happens; otherwise every element with
     * the selected id is filtered out (at least one, the selected one) and the selection is cleared.
     */
    method DeleteSelected()
      requires Valid()
      modifies this
      ensures Valid()
      ensures old(selected).None? ==> elements == old(elements) && selected == None
      ensures old(selected).Some? ==> elements == Without(old(elements), old(selected).value) && selected == None
      ensures old(selected).Some? ==> |elements| < |old(elements)|
      ensures title == old(title)
    {
      if selected.Some? {
        var id := selected.value;
        CountIdZero(elements, id);
        WithoutLength(elements, id);
        elements := Without(elements, id);
        selected := None;
      }
    }

    /**
     * A list item dragged from `draggedIndex` hovering over the item at `index`: the list
     * is array-moved when the two indices differ and left alone when they are equal.
     */
    method Hover(draggedIndex: nat, index: nat)
      requires Valid()
      requires draggedIndex < |elements| && index < |elements|
      modifies this
      ensures Valid()
      ensures elements == if draggedIndex == index then old(elements) else ArrayMove.Move(old(elements), draggedIndex, index)
      ensures multiset(elements) == multiset(old(elements))
      ensures selected == old(selected) && title == old(title)
    {
      if draggedIndex != index {
        ghost var before := elements;
        ArrayMove.MovePermutes(elements, draggedIndex, index);
        elements := ArrayMove.Move(elements, draggedIndex, index);
        if selected.Some? {
          ghost var k :| 0 <= k < |before| && before[k].id == selected.value;
          assert before[k] in multiset(elements);
        }
      }
    }

    /** Clicking the item at `index` selects its id. */
    method Click(index: nat)
      requires Valid()
      requires index < |elements|
      modifies this
      ensures Valid()
      ensures elements == old(elements) && title == old(title)
      ensures selected == Some(elements[index].id)
    {
      selected := Some(elements[index].id);
    }

    /**
     * "Save Form": `None` when the title is blank after trimming (the page alerts and sends
     * nothing); otherwise the request with the trimmed title and the elements in list order.
     */
    method Save() returns (req: Option<SaveRequest>)
      ensures req.None? <==> JsString.AllWhitespace(title)
      ensures req.Some? ==> req.value == SaveRequest(JsString.Trim(title), elements)
      ensures req == SaveRequestFor(title, elements)
    {
      req := SaveRequestFor(title, elements);
    }
  }
}
