/**
 * The `/api/forms` handlers: POST creates a form from `{ title, elements }`, GET lists
 * every form newest first, DELETE removes the form named by the `id` query parameter.
 * A failure of the database itself (anything other than a missing row) is the `fault`
 * parameter; the id the database hands out is `freshId`.
 */
module FormsRoute {
  import opened Wrappers
  import opened Json
  import JsString
  import opened Store
  import opened Http

  /** The body of a POST reply: `{ success: true, data: form }` or `{ success: false, error }`. */
  datatype PostBody = Created(form: FormRecord) | NotCreated(error: string)

  /** What POST does with a parsed request body before the database is involved. */
  datatype PostPlan =
    | TitleRequired
      /** reading the body's properties throws, or the database refuses a title that is not a string */
    | CreateFails
    | Create(title: string, elements: Json)

  /**
   * The decision of POST: a falsy title is refused, a missing or falsy `elements` is stored
   * as `[]`. A `null` body throws on destructuring; a truthy title that is not a string is
   * refused by the database's String column; both end as "Failed to create form".
   */
  function PostPlanFor(body: Json): (p: PostPlan)
    ensures p.TitleRequired? <==> !body.JNull? && !Truthy(Prop(body, "title"))
    ensures p.Create? <==> !body.JNull? && Prop(body, "title").Some? && Prop(body, "title").value.JStr?
                           && Prop(body, "title").value.s != ""
    ensures p.Create? ==> JStr(p.title) == Prop(body, "title").value && p.title != ""
    ensures p.Create? ==> Truthy(Some(p.elements))
    ensures p.Create? && Truthy(Prop(body, "elements")) ==> p.elements == Prop(body, "elements").value
    ensures p.Create? && !Truthy(Prop(body, "elements")) ==> p.elements == JArr([])
  {
    if body.JNull? then CreateFails
    else
      var title := Prop(body, "title");
      var elements := Prop(body, "elements");
      if !Truthy(title) then TitleRequired
      else if !title.value.JStr? then CreateFails
      else Create(title.value.s, if Truthy(elements) then elements.value else JArr([]))
  }

  /**
   * Only falsiness is checked: any non-empty title, even one of white space only, is
   * accepted, and a body without `elements` stores an empty list.
   */
  lemma TitleOnlyBody(title: string)
    ensures title == "" ==> PostPlanFor(JObj(map["title" := JStr(title)])) == TitleRequired
    ensures title != "" ==> PostPlanFor(JObj(map["title" := JStr(title)])) == Create(title, JArr([]))
  {
    var body := JObj(map["title" := JStr(title)]);
    assert Prop(body, "title") == Some(JStr(title));
    assert Prop(body, "elements") == None;
  }

  /**
   * POST /api/forms. Every reply has status 200; only a creatable body on a working
   * database adds a row, under the fresh id, and echoes it back.
   */
  method Post(db: Database, body: Json, freshId: int, fault: bool) returns (reply: Reply<PostBody>)
    requires db.Valid() && freshId !in db.forms
    modifies db
    ensures db.Valid()
    ensures reply.status == 200
    ensures db.responses == old(db.responses)
    ensures PostPlanFor(body).TitleRequired? ==> reply.body == NotCreated("Title is required") && db.forms == old(db.forms)
    ensures PostPlanFor(body).CreateFails? || (PostPlanFor(body).Create? && fault) ==>
              reply.body == NotCreated("Failed to create form") && db.forms == old(db.forms)
    ensures PostPlanFor(body).Create? && !fault ==>
              var p := PostPlanFor(body);
              && reply.body == Created(FormRecord(freshId, p.title, p.elements))
              && db.forms == old(db.forms)[freshId := reply.body.form]
  {
    var plan := PostPlanFor(body);
    match plan
    case TitleRequired =>
      reply := Reply(200, NotCreated("Title is required"));
    case CreateFails =>
      reply := Reply(200, NotCreated("Failed to create form"));
    case Create(title, elements) =>
      if fault {
        reply := Reply(200, NotCreated("Failed to create form"));
      } else {
        var f := db.CreateForm(freshId, title, elements);
        reply := Reply(200, Created(f));
      }
  }

  /** Every form, `orderBy: { id: 'desc' }`. */
  function NewestFirst(forms: map<int, FormRecord>): (rows: seq<FormRecord>)
    requires FormsKeyed(forms)
    ensures |rows| == |forms|
    ensures forall i | 0 <= i < |rows| :: rows[i].id in forms && forms[rows[i].id] == rows[i]
    ensures forall k | k in forms :: forms[k] in rows
    ensures forall i, j | 0 <= i < j < |rows| :: rows[i].id > rows[j].id
  {
    var ids := ListingOrder(forms, IdOnly);
    var rows := RowsOf(forms, ids);
    ListedForms(forms, ids, rows);
    rows
  }

  /** The rows of a listing of the forms are the forms, all of them, highest id first. */
  lemma ListedForms(forms: map<int, FormRecord>, ids: seq<int>, rows: seq<FormRecord>)
    requires FormsKeyed(forms)
    requires IsListing(forms, IdOnly, ids)
    requires |rows| == |ids| && forall i | 0 <= i < |ids| :: rows[i] == forms[ids[i]]
    ensures forall i | 0 <= i < |rows| :: rows[i].id in forms && forms[rows[i].id] == rows[i]
    ensures forall k | k in forms :: forms[k] in rows
    ensures forall i, j | 0 <= i < j < |rows| :: rows[i].id > rows[j].id
  {
    forall i | 0 <= i < |rows|
      ensures rows[i].id in forms && forms[rows[i].id] == rows[i]
    {
      assert ids[i] in forms && forms[ids[i]].id == ids[i];
    }
    forall k | k in forms
      ensures forms[k] in rows
    {
      var i :| 0 <= i < |ids| && ids[i] == k;
      assert rows[i] == forms[k];
    }
    forall i, j | 0 <= i < j < |rows|
      ensures rows[i].id > rows[j].id
    {
      assert Before(forms, IdOnly, ids[i], ids[j]);
    }
  }

  /** The rows stored under `ids`, in that order. */
  function RowsOf(forms: map<int, FormRecord>, ids: seq<int>): (rows: seq<FormRecord>)
    requires forall i | 0 <= i < |ids| :: ids[i] in forms
    ensures |rows| == |ids|
    ensures forall i | 0 <= i < |ids| :: rows[i] == forms[ids[i]]
  {
    seq(|ids|, i requires 0 <= i < |ids| => forms[ids[i]])
  }

  lemma RowsOfNewFirst(forms: map<int, FormRecord>, f: FormRecord, ids: seq<int>)
    requires f.id !in forms
    requires forall i | 0 <= i < |ids| :: ids[i] in forms
    ensures RowsOf(forms[f.id := f], [f.id] + ids) == [f] + RowsOf(forms, ids)
  {
  }

  /** The constant rank under which the listing order is by id alone. */
  function IdOnly(f: FormRecord): int { 0 }

  /** GET /api/forms: the listing, or `[]` when the database fails. */
  method Get(db: Database, fault: bool) returns (reply: Reply<seq<FormRecord>>)
    requires db.Valid()
    ensures reply.status == 200
    ensures fault ==> reply.body == []
    ensures !fault ==> reply.body == NewestFirst(db.forms)
  {
    if fault {
      reply := Reply(200, []);
    } else {
      reply := Reply(200, NewestFirst(db.forms));
    }
  }

  /**
   * A form created under an id above every existing one (the database's auto-increment)
   * heads the next listing, in front of the forms listed before.
   */
  lemma CreatedFormListedFirst(forms: map<int, FormRecord>, f: FormRecord)
    requires FormsKeyed(forms)
    requires forall k | k in forms :: k < f.id
    ensures NewestFirst(forms[f.id := f]) == [f] + NewestFirst(forms)
  {
    var m := forms[f.id := f];
    assert IsFirst(m, IdOnly, f.id);
    ListingWithNewFirst(forms, IdOnly, f.id, f);
    RowsOfNewFirst(forms, f, ListingOrder(forms, IdOnly));
  }

  /** The body of a DELETE reply: `{ message, success: true }` or `{ error }`. */
  datatype DeleteBody = Deleted | DeleteError(error: string)

  /** What DELETE makes of the `id` query parameter (`None` when it is absent). */
  datatype DeletePlan = IdRequired | InvalidId | DeleteRow(formId: int)

  /**
   * An absent or empty `id` is required; otherwise it goes through `parseInt`, and a
   * NaN is invalid.
   */
  function DeletePlanFor(id: Option<string>): (p: DeletePlan)
    ensures p.IdRequired? <==> id.None? || id.value == ""
    ensures p.InvalidId? <==> id.Some? && id.value != "" && JsString.ParseInt(id.value).None?
    ensures p.DeleteRow? ==> JsString.ParseInt(id.value) == Some(p.formId)
  {
    if id.None? || id.value == "" then IdRequired
    else
      match JsString.ParseInt(id.value)
      case None => InvalidId
      case Some(n) => DeleteRow(n)
  }

  /** The forms page asks to delete `?id=${id}`: that id, and no other, is deleted. */
  lemma DeleteAsksForId(n: int)
    ensures DeletePlanFor(Some(JsString.IntToString(n))) == DeleteRow(n)
  {
    JsString.ParseIntOfDecimal(n);
  }

  /** Trailing text after the digits is ignored ("12abc" deletes form 12); no digits at all is invalid. */
  lemma DeleteReadsLeadingDigits(n: int, rest: string, junk: string)
    requires rest == [] || !JsString.IsDecimalDigit(rest[0])
    requires n == 0 && rest != [] ==> rest[0] != 'x' && rest[0] != 'X'
    requires junk != [] && forall c | c in junk :: !JsString.IsDecimalDigit(c)
    ensures DeletePlanFor(Some(JsString.IntToString(n) + rest)) == DeleteRow(n)
    ensures DeletePlanFor(Some(junk)) == InvalidId
  {
    JsString.ParseIntReadsDecimalPrefix(n, rest);
  }

  /**
   * DELETE /api/forms?id=…: 400 without an id or with one that is not a number, 500 when
   * the database fails, 404 when there is no such form, otherwise the row is gone.
   */
  method Delete(db: Database, id: Option<string>, fault: bool) returns (reply: Reply<DeleteBody>)
    requires db.Valid()
    modifies db
    ensures db.Valid()
    ensures db.responses == old(db.responses)
    ensures DeletePlanFor(id).IdRequired? ==> reply == Reply(400, DeleteError("Form ID is required"))
    ensures DeletePlanFor(id).InvalidId? ==> reply == Reply(400, DeleteError("Invalid Form ID"))
    ensures DeletePlanFor(id).DeleteRow? ==>
              var f := DeletePlanFor(id).formId;
              reply == if fault then Reply(500, DeleteError("Error deleting form"))
                       else if f !in old(db.forms) then Reply(404, DeleteError("Form not found"))
                       else Reply(200, Deleted)
    ensures reply.status == 200 ==> db.forms == old(db.forms) - {DeletePlanFor(id).formId}
    ensures reply.status != 200 ==> db.forms == old(db.forms)
  {
    var plan := DeletePlanFor(id);
    match plan
    case IdRequired =>
      reply := Reply(400, DeleteError("Form ID is required"));
    case InvalidId =>
      reply := Reply(400, DeleteError("Invalid Form ID"));
    case DeleteRow(formId) =>
      if fault {
        reply := Reply(500, DeleteError("Error deleting form"));
      } else {
        var found := db.DeleteForm(formId);
        if found {
          reply := Reply(200, Deleted);
        } else {
          reply := Reply(404, DeleteError("Form not found"));
        }
      }
  }
}
