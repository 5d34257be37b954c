/**
 * The builder page and the forms API together: what "Save Form" posts is what POST
 * /api/forms stores, and the stored form reads back as the list the user built.
 */
module SaveRoundTrip {
  import opened Wrappers
  import opened Json
  import JsString
  import opened FormBuilder
  import opened Store
  import opened Http
  import FormsRoute

  /**
   * A save with a non-blank title posts a body that the forms API accepts: it stores the
   * trimmed title and the element list as a JSON array (an empty list too, not `[]` by default).
   */
  lemma SaveAccepted(title: string, elements: seq<Element>)
    requires !JsString.AllWhitespace(title)
    ensures SaveRequestFor(title, elements).Some?
    ensures FormsRoute.PostPlanFor(RequestJson(SaveRequestFor(title, elements).value))
            == FormsRoute.Create(JsString.Trim(title), ElementsJson(elements))
  {
    var body := RequestJson(SaveRequestFor(title, elements).value);
    assert Prop(body, "title") == Some(JStr(JsString.Trim(title)));
    assert Prop(body, "elements") == Some(ElementsJson(elements));
  }

  /**
   * After a successful save under an auto-increment id, the forms list starts with the new
   * form, whose title is the trimmed title and whose elements read back as the saved list.
   */
  lemma SavedFormReadsBack(forms: map<int, FormRecord>, id: int, title: string, elements: seq<Element>)
    requires FormsKeyed(forms)
    requires forall k | k in forms :: k < id
    requires !JsString.AllWhitespace(title)
    ensures var listed := FormsRoute.NewestFirst(forms[id := FormRecord(id, JsString.Trim(title), ElementsJson(elements))]);
            && listed != []
            && listed[0].id == id
            && listed[0].title == JsString.Trim(title) && listed[0].title != ""
            && listed[0].elements.JArr? && ElementsOf(listed[0].elements.items) == Some(elements)
  {
    var f := FormRecord(id, JsString.Trim(title), ElementsJson(elements));
    FormsRoute.CreatedFormListedFirst(forms, f);
    ElementsRoundTrip(elements);
  }

  /** The stored row as `NextResponse.json` writes it. */
  function FormJson(f: FormRecord): Json {
    JObj(map["id" := JNum(f.id), "title" := JStr(f.title), "elements" := f.elements])
  }

  /** The JSON body of a reply of POST /api/forms. */
  function PostReplyJson(body: FormsRoute.PostBody): Json {
    match body
    case Created(f) => JObj(map["success" := JBool(true), "data" := FormJson(f)])
    case NotCreated(e) => JObj(map["success" := JBool(false), "error" := JStr(e)])
  }

  /**
   * What the page makes of the forms API's answer to a save: a created form navigates to
   * the forms list, a refusal is alerted with the API's own error text.
   */
  lemma SaveOutcomeOfReply(reply: Reply<FormsRoute.PostBody>)
    requires 200 <= reply.status < 300
    requires reply.body.NotCreated? ==> reply.body.error != ""
    ensures reply.body.Created? ==> SaveOutcomeOf(true, Some(PostReplyJson(reply.body))) == Navigated
    ensures reply.body.NotCreated? ==>
              SaveOutcomeOf(true, Some(PostReplyJson(reply.body))) == Alerted(Some(reply.body.error))
  {
    var j := PostReplyJson(reply.body);
    if reply.body.Created? {
      assert Prop(j, "success") == Some(JBool(true));
    } else {
      assert Prop(j, "success") == Some(JBool(false));
      assert Prop(j, "error") == Some(JStr(reply.body.error));
    }
  }
}
