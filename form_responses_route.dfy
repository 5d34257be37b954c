/**
 * The `/api/form-responses` handlers: POST records one submission `{ formId, responses }`,
 * GET lists submissions, newest first, optionally only those of one form, each with the
 * title of its form. A failure of the database itself is the `fault` parameter; the id and
 * the creation time the database assigns are `freshId` and `now`.
 */
module FormResponsesRoute {
  import opened Wrappers
  import opened Json
  import JsString
  import opened Store
  import opened Http

  /** The body of a POST reply: the stored row, or `{ error }`. */
  datatype PostBody = Saved(response: ResponseRecord) | SaveError(error: string)

  /** What POST does with a parsed request body before the database is involved. */
  datatype PostPlan =
    | FieldsRequired
      /**
       * reading the properties of a `null` body throws, or `parseInt(formId.toString())`
       * is NaN, which the database's Int column refuses
       */
    | SaveFails
    | Save(formId: int, answers: Json)

  /**
   * The decision of POST: both `formId` and `responses` must be truthy; the form id is
   * whatever `parseInt` reads from its string form, and the answers are stored as sent.
   */
  function PostPlanFor(body: Json): (p: PostPlan)
    ensures p.FieldsRequired? <==> !body.JNull? && (!Truthy(Prop(body, "formId")) || !Truthy(Prop(body, "responses")))
    ensures p.SaveFails? <==>
              || body.JNull?
              || (&& Truthy(Prop(body, "formId")) && Truthy(Prop(body, "responses"))
                  && JsString.ParseInt(ToStr(Prop(body, "formId").value)).None?)
    ensures p.Save? ==> Some(p.formId) == JsString.ParseInt(ToStr(Prop(body, "formId").value))
    ensures p.Save? ==> Prop(body, "responses") == Some(p.answers) && Truthy(Some(p.answers))
  {
    if body.JNull? then SaveFails
    else
      var formId := Prop(body, "formId");
      var answers := Prop(body, "responses");
      if !Truthy(formId) || !Truthy(answers) then FieldsRequired
      else
        match JsString.ParseInt(ToStr(formId.value))
        case None => SaveFails
        case Some(n) => Save(n, answers.value)
  }

  /** The body the fill page posts: the numeric id of the form and the answers. */
  function Submission(formId: int, answers: Json): Json {
    JObj(map["formId" := JNum(formId), "responses" := answers])
  }

  /** The plan for a body whose two fields are known. */
  lemma PlanOfFields(body: Json, formId: Json, answers: Json)
    requires !body.JNull?
    requires Prop(body, "formId") == Some(formId) && Prop(body, "responses") == Some(answers)
    requires Truthy(Some(answers))
    ensures !Truthy(Some(formId)) ==> PostPlanFor(body) == FieldsRequired
    ensures Truthy(Some(formId)) && JsString.ParseInt(ToStr(formId)).Some? ==>
              PostPlanFor(body) == Save(JsString.ParseInt(ToStr(formId)).value, answers)
  {
  }

  /**
   * A submission from the fill page is stored under the form's own id, as long as that id
   * is not 0 (which is falsy and refused) and the answers are truthy (an object always is).
   */
  lemma SubmissionStored(formId: int, answers: Json)
    requires Truthy(Some(answers))
    ensures formId != 0 ==> PostPlanFor(Submission(formId, answers)) == Save(formId, answers)
    ensures formId == 0 ==> PostPlanFor(Submission(formId, answers)) == FieldsRequired
  {
    var body := Submission(formId, answers);
    assert Prop(body, "formId") == Some(JNum(formId));
    assert Prop(body, "responses") == Some(answers);
    assert ToStr(JNum(formId)) == JsString.IntToString(formId);
    JsString.ParseIntOfDecimal(formId);
    PlanOfFields(body, JNum(formId), answers);
  }

  /** A form id sent as a string is read with `parseInt`: "0" is truthy and saved as form 0. */
  lemma StringFormIdParsed(formId: int, answers: Json)
    requires Truthy(Some(answers))
    ensures PostPlanFor(JObj(map["formId" := JStr(JsString.IntToString(formId)), "responses" := answers]))
            == Save(formId, answers)
  {
    var body := JObj(map["formId" := JStr(JsString.IntToString(formId)), "responses" := answers]);
    assert Prop(body, "formId") == Some(JStr(JsString.IntToString(formId)));
    assert Prop(body, "responses") == Some(answers);
    JsString.ParseIntOfDecimal(formId);
    PlanOfFields(body, JStr(JsString.IntToString(formId)), answers);
  }

  /**
   * POST /api/form-responses: 400 when a field is missing or falsy, 500 when the body
   * or the form id cannot be stored or the database fails, otherwise the new row.
   */
  method Post(db: Database, body: Json, freshId: int, now: int, fault: bool) returns (reply: Reply<PostBody>)
    requires db.Valid() && freshId !in db.responses
    modifies db
    ensures db.Valid()
    ensures db.forms == old(db.forms)
    ensures PostPlanFor(body).FieldsRequired? ==>
              reply == Reply(400, SaveError("FormId and responses are required")) && db.responses == old(db.responses)
    ensures PostPlanFor(body).SaveFails? || (PostPlanFor(body).Save? && fault) ==>
              reply == Reply(500, SaveError("Error saving form response")) && db.responses == old(db.responses)
    ensures PostPlanFor(body).Save? && !fault ==>
              var p := PostPlanFor(body);
              && reply == Reply(200, Saved(ResponseRecord(freshId, p.formId, p.answers, now)))
              && db.responses == old(db.responses)[freshId := reply.body.response]
  {
    var plan := PostPlanFor(body);
    match plan
    case FieldsRequired =>
      reply := Reply(400, SaveError("FormId and responses are required"));
    case SaveFails =>
      reply := Reply(500, SaveError("Error saving form response"));
    case Save(formId, answers) =>
      if fault {
        reply := Reply(500, SaveError("Error saving form response"));
      } else {
        var r := db.CreateResponse(freshId, formId, answers, now);
        reply := Reply(200, Saved(r));
      }
  }

  /** The `where` clause GET builds from its `formId` query parameter (`None` when absent). */
  datatype Filter =
    | AllForms
    | OneForm(formId: int)
      /** `parseInt` gave NaN, which the database refuses as a filter value */
    | BadFilter

  /** An absent or empty parameter lists everything; any other goes through `parseInt`. */
  function FilterFor(param: Option<string>): (f: Filter)
    ensures f.AllForms? <==> param.None? || param.value == ""
    ensures f.BadFilter? <==> param.Some? && param.value != "" && JsString.ParseInt(param.value).None?
    ensures f.OneForm? ==> JsString.ParseInt(param.value) == Some(f.formId)
  {
    if param.None? || param.value == "" then AllForms
    else
      match JsString.ParseInt(param.value)
      case None => BadFilter
      case Some(n) => OneForm(n)
  }

  predicate Matches(filter: Filter, r: ResponseRecord) {
    match filter
    case AllForms => true
    case OneForm(n) => r.formId == n
    case BadFilter => false
  }

  /** The rows the `where` clause selects. */
  function Selected(responses: map<int, ResponseRecord>, filter: Filter): (sub: map<int, ResponseRecord>)
    ensures forall k | k in sub :: k in responses && sub[k] == responses[k] && Matches(filter, sub[k])
    ensures forall k | k in responses && Matches(filter, responses[k]) :: k in sub
  {
    map k | k in responses && Matches(filter, responses[k]) :: responses[k]
  }

  /** The rank of `orderBy: { createdAt: 'desc' }`. */
  function CreatedAt(r: ResponseRecord): int { r.createdAt }

  /** One listed submission with `include: { form: { select: { title } } }`. */
  datatype ResponseRow = ResponseRow(response: ResponseRecord, formTitle: Option<string>)

  /** The title of the form a submission belongs to; `None` once that form is gone. */
  function TitleOf(forms: map<int, FormRecord>, formId: int): (t: Option<string>)
    ensures t.Some? <==> formId in forms
    ensures t.Some? ==> t.value == forms[formId].title
  {
    if formId in forms then Some(forms[formId].title) else None
  }

  /** Row `a` is listed before row `b`: it is newer, or as new with a higher id. */
  predicate NewerFirst(a: ResponseRecord, b: ResponseRecord) {
    a.createdAt > b.createdAt || (a.createdAt == b.createdAt && a.id > b.id)
  }

  /** `NewerFirst` is the listing order `Before` under the rank `CreatedAt`. */
  lemma NewerFirstIsBefore(m: map<int, ResponseRecord>, a: int, b: int)
    requires ResponsesKeyed(m) && a in m && b in m
    ensures NewerFirst(m[a], m[b]) <==> Before(m, CreatedAt, a, b)
  {
  }

  /**
   * The rows GET returns: exactly the selected submissions, each with its form's title,
   * newest first (equal times: higher id first).
   */
  function Listing(responses: map<int, ResponseRecord>, forms: map<int, FormRecord>, filter: Filter): (rows: seq<ResponseRow>)
    requires ResponsesKeyed(responses)
    ensures forall i | 0 <= i < |rows| ::
              && rows[i].response.id in responses && responses[rows[i].response.id] == rows[i].response
              && Matches(filter, rows[i].response)
              && rows[i].formTitle == TitleOf(forms, rows[i].response.formId)
    ensures forall k | k in responses && Matches(filter, responses[k]) ::
              exists i | 0 <= i < |rows| :: rows[i].response == responses[k]
    ensures forall i, j | 0 <= i < j < |rows| :: NewerFirst(rows[i].response, rows[j].response)
  {
    var sub := Selected(responses, filter);
    var ids := ListingOrder(sub, CreatedAt);
    var rows := RowsOf(sub, forms, ids);
    ListedRows(sub, ids, rows);
    rows
  }

  /** The rows of a listing of `sub` are the rows of `sub`, all of them, newest first. */
  lemma ListedRows(sub: map<int, ResponseRecord>, ids: seq<int>, rows: seq<ResponseRow>)
    requires ResponsesKeyed(sub)
    requires IsListing(sub, CreatedAt, ids)
    requires |rows| == |ids| && forall i | 0 <= i < |ids| :: rows[i].response == sub[ids[i]]
    ensures forall i | 0 <= i < |rows| :: rows[i].response.id in sub && sub[rows[i].response.id] == rows[i].response
    ensures forall k | k in sub :: exists i | 0 <= i < |rows| :: rows[i].response == sub[k]
    ensures forall i, j | 0 <= i < j < |rows| :: NewerFirst(rows[i].response, rows[j].response)
  {
    forall k | k in sub
      ensures exists i | 0 <= i < |rows| :: rows[i].response == sub[k]
    {
      var i :| 0 <= i < |ids| && ids[i] == k;
      assert rows[i].response == sub[k];
    }
    forall i, j | 0 <= i < j < |rows|
      ensures NewerFirst(rows[i].response, rows[j].response)
    {
      assert Before(sub, CreatedAt, ids[i], ids[j]);
    }
  }

  /** The rows of `sub` under `ids`, in that order, joined with their forms' titles. */
  function RowsOf(sub: map<int, ResponseRecord>, forms: map<int, FormRecord>, ids: seq<int>): (rows: seq<ResponseRow>)
    requires forall i | 0 <= i < |ids| :: ids[i] in sub
    ensures |rows| == |ids|
    ensures forall i | 0 <= i < |ids| :: rows[i] == ResponseRow(sub[ids[i]], TitleOf(forms, sub[ids[i]].formId))
  {
    seq(|ids|, i requires 0 <= i < |ids| => ResponseRow(sub[ids[i]], TitleOf(forms, sub[ids[i]].formId)))
  }

  /** GET /api/form-responses?formId=…: the listing, or `[]` when the filter or the database fails. */
  method Get(db: Database, formId: Option<string>, fault: bool) returns (reply: Reply<seq<ResponseRow>>)
    requires db.Valid()
    ensures reply.status == 200
    ensures fault || FilterFor(formId).BadFilter? ==> reply.body == []
    ensures !fault && !FilterFor(formId).BadFilter? ==> reply.body == Listing(db.responses, db.forms, FilterFor(formId))
  {
    var filter := FilterFor(formId);
    if fault || filter.BadFilter? {
      reply := Reply(200, []);
    } else {
      reply := Reply(200, Listing(db.responses, db.forms, filter));
    }
  }

  lemma SelectedWithNew(responses: map<int, ResponseRecord>, filter: Filter, r: ResponseRecord)
    requires Matches(filter, r)
    ensures Selected(responses[r.id := r], filter) == Selected(responses, filter)[r.id := r]
  {
  }

  lemma RowsOfNewFirst(sub: map<int, ResponseRecord>, forms: map<int, FormRecord>, r: ResponseRecord, ids: seq<int>)
    requires r.id !in sub
    requires forall i | 0 <= i < |ids| :: ids[i] in sub
    ensures RowsOf(sub[r.id := r], forms, [r.id] + ids)
            == [ResponseRow(r, TitleOf(forms, r.formId))] + RowsOf(sub, forms, ids)
  {
  }

  /**
   * A submission stored with a creation time no earlier than any other, under an id above
   * every other, heads the next listing of every filter that selects it.
   */
  lemma SavedResponseListedFirst(responses: map<int, ResponseRecord>, forms: map<int, FormRecord>,
                                 filter: Filter, r: ResponseRecord)
    requires ResponsesKeyed(responses)
    requires forall k | k in responses :: k < r.id && responses[k].createdAt <= r.createdAt
    requires Matches(filter, r)
    ensures Listing(responses[r.id := r], forms, filter)
            == [ResponseRow(r, TitleOf(forms, r.formId))] + Listing(responses, forms, filter)
  {
    var sub := Selected(responses, filter);
    SelectedWithNew(responses, filter, r);
    assert IsFirst(sub[r.id := r], CreatedAt, r.id);
    ListingWithNewFirst(sub, CreatedAt, r.id, r);
    RowsOfNewFirst(sub, forms, r, ListingOrder(sub, CreatedAt));
  }
}
