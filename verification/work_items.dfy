/**
 The substitution dictionary of a work item: `FillPropertyDictionary` and
 `CreateDictionaryFromWorkItem`.  A temporary dictionary receives fixed keys,
 every field under its name and its reference name, the comment thread and
 the state and area-path history; its entries are then copied, each key
 prefixed, into the caller's dictionary.
 */
module WorkItems {
  import opened Wrappers
  import opened Text
  import opened Platform
  import opened HtmlTree
  import opened ImageEmbedding
  import opened Dictionaries

  // ---------------------------------------------------------------------------
  // The work item as the tracking object model presents it

  /** A field's value object: none, a `DateTime`, or any other object, known
      by what its `ToString()` returns. */
  datatype FieldValue = Null | DateTime(date: Date) | Obj(text: string)

  datatype Field = Field(name: string, referenceName: string, value: FieldValue, isHtml: bool)

  /** A field of a revision whose `IsChangedInRevision` is set. */
  datatype Change = Change(referenceName: string, value: FieldValue)

  /** A revision: its "Changed By" and "Changed Date" values and the fields it changed. */
  datatype Revision = Revision(changedBy: FieldValue, changedDate: FieldValue, changes: seq<Change>)

  /** A discussion comment: `RevisedBy.DisplayName`, `RevisedDate`, `Text`. */
  datatype Comment = Comment(author: string, date: Date, text: string)

  datatype WorkItem = WorkItem(
    id: int,
    title: string,
    description: string,
    /** `Fields["System.AssignedTo"].Value` and `Fields["System.CreatedBy"].Value`. */
    assignedTo: FieldValue,
    createdBy: FieldValue,
    fields: seq<Field>,
    revisions: seq<Revision>,
    attachments: seq<Attachment>)

  /** A substitution value: a string, the boxed integer id, an
      `HtmlSubstitution`, or a revision's raw "Changed By" object. */
  datatype Value = Plain(text: string) | Number(n: int) | Html(html: string) | Boxed(raw: FieldValue)

  /** The exceptions that escape `FillPropertyDictionary`: those of the
      history loop, and the one `LoadHtml` throws, with its message, when
      plain text is taken from HTML it cannot load. */
  datatype Error = NullReference | InvalidCast | HtmlLoadError(message: string)

  /** The surroundings of an export: runtime, store, HTML library and the
      `NormalizeFontInDescription` option. */
  datatype Env = Env(runtime: Runtime, store: Store, html: HtmlLibrary, normalizeFont: bool)

  function ContextOf(item: WorkItem, env: Env): Context {
    Context(env.runtime, env.store, env.html, item.attachments)
  }

  /** `value?.ToString()`. */
  function ToText(v: FieldValue, runtime: Runtime): (r: Option<string>)
    ensures r.None? <==> v.Null?
  {
    match v
    case Null => None
    case DateTime(d) => Some(runtime.dateText(d))
    case Obj(text) => Some(text)
  }

  /** `value?.ToString() ?? String.Empty`. */
  function TextOrEmpty(v: FieldValue, runtime: Runtime): (r: string)
    ensures v.Null? ==> r == []
    ensures v.DateTime? ==> r == runtime.dateText(v.date)
    ensures v.Obj? ==> r == v.text
  {
    match ToText(v, runtime)
    case None => []
    case Some(text) => text
  }

  /** `GetTxtFromHtmlContent`: the text of the loaded document; nothing
      catches the exception of a failed load. */
  function GetTxtFromHtmlContent(html: string, env: Env): (r: Result<string, Error>)
    ensures r.Failure? <==> env.html.load(html).Failure?
    ensures r.Failure? ==> r.error == HtmlLoadError(env.html.load(html).error)
    ensures r.Success? ==> r.value == env.html.innerText(env.html.load(html).value)
  {
    match env.html.load(html)
    case Failure(message) => Failure(HtmlLoadError(message))
    case Success(doc) => Success(env.html.innerText(doc))
  }

  /** An `HtmlSubstitution` of HTML with its images embedded. */
  function Embedded(item: WorkItem, html: string, env: Env): (r: Value)
    ensures r.Html?
    ensures env.html.load(html).Failure? ==> r == Html(ErrorPrefix + env.html.load(html).error)
    ensures env.html.load(html).Success? && !env.normalizeFont ==>
      r == Html(env.html.outerHtml(EmbedImages(env.html.load(html).value, ContextOf(item, env))))
  {
    Html(GenerateHtmlForWordEmbedding(html, env.normalizeFont, ContextOf(item, env)))
  }

  /** HTML whose images are all embedded already, or have no `src`, is kept
      as it was loaded when fonts are left alone. */
  lemma EmbeddedKeepsEmbeddedImages(item: WorkItem, html: string, env: Env)
    requires env.html.load(html).Success? && !env.normalizeFont
    requires forall t :: t in Tags(env.html.load(html).value) && t.name == "img" ==>
      SrcOf(t.attributes) == [] || Contains(SrcOf(t.attributes), "base64")
    ensures Embedded(item, html, env) == Html(env.html.outerHtml(env.html.load(html).value))
  {
    GenerateHtmlKeepsEmbeddedImages(html, ContextOf(item, env));
  }

  /** `GetValue`: a missing value is the empty string and a date its short
      form, even in an HTML field; any other value of an HTML field becomes
      embedded HTML and of any other field its text. */
  function GetValue(f: Field, item: WorkItem, env: Env): (r: Value)
    ensures r.Html? <==> f.isHtml && f.value.Obj?
    ensures r.Plain? <==> !(f.isHtml && f.value.Obj?)
    ensures f.value.Null? ==> r == Plain([])
    ensures f.value.DateTime? ==> r == Plain(env.runtime.shortDate(f.value.date))
    ensures f.value.Obj? && !f.isHtml ==> r == Plain(f.value.text)
    ensures f.value.Obj? && f.isHtml ==> r == Embedded(item, f.value.text, env)
  {
    match f.value
    case Null => Plain([])
    case DateTime(d) => Plain(env.runtime.shortDate(d))
    case Obj(text) => if f.isHtml then Embedded(item, text, env) else Plain(text)
  }

  // ---------------------------------------------------------------------------
  // The fixed keys

  const FixedKeys: seq<string> := ["title", "id", "description", "description.txt", "assignedto", "createdby"]
  const CommentsKey: string := "comments"

  /** The fixed keys, in the order they are set; the description is plain
      text when HTML fields are skipped and embedded HTML otherwise. */
  function FixedWrites(item: WorkItem, skipHtmlFields: bool, env: Env): (r: Result<seq<Write<Value>>, Error>)
    ensures r.Failure? <==> env.html.load(item.description).Failure?
    ensures r.Failure? ==> r.error == HtmlLoadError(env.html.load(item.description).error)
    ensures r.Success? ==>
      var ws := r.value;
      && |ws| == |FixedKeys|
      && (forall i :: 0 <= i < |ws| ==> ws[i].key == FixedKeys[i])
      && ws[0].value == Plain(item.title) && ws[1].value == Number(item.id)
      && ws[3].value == Plain(env.html.innerText(env.html.load(item.description).value))
      && (skipHtmlFields ==> ws[2].value == ws[3].value)
      && (!skipHtmlFields ==> ws[2].value == Embedded(item, item.description, env))
      && ws[4].value == Plain(TextOrEmpty(item.assignedTo, env.runtime))
      && ws[5].value == Plain(TextOrEmpty(item.createdBy, env.runtime))
  {
    match GetTxtFromHtmlContent(item.description, env)
    case Failure(e) => Failure(e)
    case Success(txt) =>
      var text := Plain(txt);
      Success(
        [ Write("title", Plain(item.title)),
          Write("id", Number(item.id)),
          Write("description", if skipHtmlFields then text else Embedded(item, item.description, env)),
          Write("description.txt", text),
          Write("assignedto", Plain(TextOrEmpty(item.assignedTo, env.runtime))),
          Write("createdby", Plain(TextOrEmpty(item.createdBy, env.runtime))) ])
  }

  // ---------------------------------------------------------------------------
  // The fields

  /** A field the loop skips: its name is "description", ignoring case. */
  predicate Special(f: Field, runtime: Runtime) {
    EqualsIgnoreCase(runtime.upper, f.name, "description")
  }

  /** A field that is not skipped and writes `key` under one of its names. */
  predicate Claims(f: Field, runtime: Runtime, key: string) {
    !Special(f, runtime) && (f.referenceName == key || f.name == key)
  }

  /** `tempDictionary[field.Name] = tempDictionary[field.ReferenceName] = GetValue(field)`
      for one field, unless it is skipped: the inner assignment runs first,
      and both store the one value. */
  function OwnWrites(f: Field, item: WorkItem, env: Env): (ws: seq<Write<Value>>)
    ensures forall key :: LastWrite(ws, key) == if Claims(f, env.runtime, key) then Some(GetValue(f, item, env)) else None
  {
    if Special(f, env.runtime) then []
    else
      var v := GetValue(f, item, env);
      var ws := [Write(f.referenceName, v), Write(f.name, v)];
      assert ws[..1] == [Write(f.referenceName, v)];
      ws
  }

  /** The field loop, over every field in order. */
  function FieldWrites(fields: seq<Field>, item: WorkItem, env: Env): (ws: seq<Write<Value>>)
    ensures |ws| <= 2 * |fields|
  {
    if fields == [] then [] else OwnWrites(fields[0], item, env) + FieldWrites(fields[1..], item, env)
  }

  /** A key no field claims is not written by the field loop. */
  lemma {:induction false} FieldWritesMiss(fields: seq<Field>, item: WorkItem, env: Env, key: string)
    requires forall j :: 0 <= j < |fields| ==> !Claims(fields[j], env.runtime, key)
    ensures LastWrite(FieldWrites(fields, item, env), key).None?
    decreases |fields|
  {
    if fields != [] {
      assert forall j :: 0 <= j < |fields[1..]| ==> fields[1..][j] == fields[j + 1];
      FieldWritesMiss(fields[1..], item, env, key);
      LastWriteConcat(OwnWrites(fields[0], item, env), FieldWrites(fields[1..], item, env), key);
    }
  }

  /** Both names of a field hold its value, unless a later field claims the
      same key. */
  lemma {:induction false} FieldWritesLast(fields: seq<Field>, item: WorkItem, env: Env, i: int, key: string)
    requires 0 <= i < |fields| && Claims(fields[i], env.runtime, key)
    requires forall j :: i < j < |fields| ==> !Claims(fields[j], env.runtime, key)
    ensures LastWrite(FieldWrites(fields, item, env), key) == Some(GetValue(fields[i], item, env))
    decreases |fields|
  {
    var tail := fields[1..];
    assert FieldWrites(fields, item, env) == OwnWrites(fields[0], item, env) + FieldWrites(tail, item, env);
    assert forall j :: 0 <= j < |tail| ==> tail[j] == fields[j + 1];
    LastWriteConcat(OwnWrites(fields[0], item, env), FieldWrites(tail, item, env), key);
    if i == 0 {
      FieldWritesMiss(tail, item, env, key);
    } else {
      FieldWritesLast(tail, item, env, i - 1, key);
    }
  }

  // ---------------------------------------------------------------------------
  // The comments

  /** One comment as the thread's HTML renders it. */
  function CommentHtml(c: Comment, runtime: Runtime): (r: string)
    ensures var a, d := 14 + |c.author|, 23 + |c.author| + |runtime.commentStamp(c.date)|;
      && |r| == d + 4 + |c.text|
      && r[..14] == "<b>Author:</b>" && r[14..a] == c.author
      && r[a..a + 9] == " in date " && r[a + 9..d] == runtime.commentStamp(c.date)
      && r[d..d + 4] == "<br>" && r[d + 4..] == c.text
  {
    "<b>Author:</b>" + c.author + " in date " + runtime.commentStamp(c.date) + "<br>" + c.text
  }

  /** The thread: every comment's HTML, in order. */
  function CommentsHtml(comments: seq<Comment>, runtime: Runtime): (r: string)
    ensures comments == [] <==> r == []
  {
    if comments == [] then [] else CommentHtml(comments[0], runtime) + CommentsHtml(comments[1..], runtime)
  }

  lemma {:induction false} CommentsHtmlConcat(a: seq<Comment>, b: seq<Comment>, runtime: Runtime)
    ensures CommentsHtml(a + b, runtime) == CommentsHtml(a, runtime) + CommentsHtml(b, runtime)
    decreases |a|
  {
    if a == [] {
      assert a + b == b;
    } else {
      assert (a + b)[1..] == a[1..] + b;
      CommentsHtmlConcat(a[1..], b, runtime);
    }
  }

  /** Every comment of the thread appears, whole, in its HTML. */
  lemma CommentsHtmlContains(comments: seq<Comment>, i: int, runtime: Runtime)
    requires 0 <= i < |comments|
    ensures Contains(CommentsHtml(comments, runtime), CommentHtml(comments[i], runtime))
  {
    var before, after := comments[..i], comments[i + 1..];
    var c := CommentHtml(comments[i], runtime);
    assert comments == before + [comments[i]] + after;
    CommentsHtmlConcat(before + [comments[i]], after, runtime);
    CommentsHtmlConcat(before, [comments[i]], runtime);
    assert CommentsHtml([comments[i]], runtime) == c + [];
    assert CommentsHtml(comments, runtime) == CommentsHtml(before, runtime) + c + CommentsHtml(after, runtime);
    ContainsMiddle(CommentsHtml(before, runtime), c, CommentsHtml(after, runtime));
  }

  /** The "comments" value: empty without comments, otherwise the thread as
      plain text when HTML fields are skipped and as embedded HTML if not. */
  function CommentsValue(item: WorkItem, comments: seq<Comment>, skipHtmlFields: bool, env: Env): (r: Result<Value, Error>)
    ensures r.Failure? <==> ThreadFails(comments, skipHtmlFields, env)
    ensures r.Failure? ==> r.error == HtmlLoadError(env.html.load(CommentsHtml(comments, env.runtime)).error)
    ensures comments == [] ==> r == Success(Plain([]))
    ensures comments != [] && !skipHtmlFields ==> r == Success(Embedded(item, CommentsHtml(comments, env.runtime), env))
    ensures comments != [] && skipHtmlFields && r.Success? ==>
      r.value == Plain(env.html.innerText(env.html.load(CommentsHtml(comments, env.runtime)).value))
  {
    if comments == [] then Success(Plain([]))
    else
      var html := CommentsHtml(comments, env.runtime);
      if skipHtmlFields then
        match GetTxtFromHtmlContent(html, env)
        case Failure(e) => Failure(e)
        case Success(txt) => Success(Plain(txt))
      else Success(Embedded(item, html, env))
  }

  /** Taking the plain text of the thread throws: there are comments, HTML
      fields are skipped and the thread's HTML does not load. */
  predicate ThreadFails(comments: seq<Comment>, skipHtmlFields: bool, env: Env) {
    comments != [] && skipHtmlFields && env.html.load(CommentsHtml(comments, env.runtime)).Failure?
  }

  // ---------------------------------------------------------------------------
  // The history

  /** A change of the "system.state" field, its reference name compared ignoring case. */
  predicate IsStateChange(c: Change, runtime: Runtime) {
    EqualsIgnoreCase(runtime.upper, c.referenceName, "system.state")
  }

  /** A change of the "system.areapath" field that is not also taken for a state change. */
  predicate IsAreaPathChange(c: Change, runtime: Runtime) {
    !IsStateChange(c, runtime) && EqualsIgnoreCase(runtime.upper, c.referenceName, "system.areapath")
  }

  /** `(DateTime)changedDate`: unboxing a null reference throws a
      NullReferenceException, any other object an InvalidCastException. */
  function CastDate(v: FieldValue): (r: Result<Date, Error>)
    ensures r.Success? <==> v.DateTime?
    ensures v.Null? ==> r == Failure(NullReference)
    ensures v.Obj? ==> r == Failure(InvalidCast)
  {
    match v
    case Null => Failure(NullReference)
    case DateTime(d) => Success(d)
    case Obj(_) => Failure(InvalidCast)
  }

  const StatePrefix: string := "statechange."
  const AuthorSuffix: string := ".author"
  const DateSuffix: string := ".date"
  const AreaAuthorKey: string := "lastareapathchange.author"
  const AreaDateKey: string := "lastareapathchange.date"

  /** `$"statechange.{state}{suffix}"`. */
  function StateKey(state: string, suffix: string): string {
    StatePrefix + state + suffix
  }

  /** `field.Value.ToString().ToLower()`, absent when the value is null. */
  function StateOf(c: Change, runtime: Runtime): (r: Option<string>)
    ensures r.None? <==> c.value.Null?
  {
    match ToText(c.value, runtime)
    case None => None
    case Some(text) => Some(runtime.toLower(text))
  }

  /** The author key and the date key one changed field makes the loop
      write, if any. */
  function HistoryKeys(c: Change, runtime: Runtime): (r: Option<(string, string)>)
    ensures r.Some? ==> AuthorKey(r.value.0) && !AuthorKey(r.value.1)
  {
    if IsStateChange(c, runtime) then
      match StateOf(c, runtime)
      case None => None
      case Some(state) =>
        StateKeyEnds(state);
        Some((StateKey(state, AuthorSuffix), StateKey(state, DateSuffix)))
    else if IsAreaPathChange(c, runtime) then
      assert AuthorKey(AreaAuthorKey) && !AuthorKey(AreaDateKey);
      Some((AreaAuthorKey, AreaDateKey))
    else None
  }

  /** The keys one changed field makes the loop write. */
  predicate Hits(c: Change, runtime: Runtime, key: string) {
    HistoryKeys(c, runtime).Some? && (key == HistoryKeys(c, runtime).value.0 || key == HistoryKeys(c, runtime).value.1)
  }

  /** The keys ending in ".author", as against those ending in ".date". */
  predicate AuthorKey(key: string) {
    |AuthorSuffix| <= |key| && key[|key| - |AuthorSuffix|..] == AuthorSuffix
  }

  /** What a revision stores under a history key: the raw "Changed By"
      object under an author key, the short "Changed Date" under a date key. */
  function Stamp(rev: Revision, runtime: Runtime, key: string): Value
    requires rev.changedDate.DateTime?
  {
    if AuthorKey(key) then Boxed(rev.changedBy) else Plain(runtime.shortDate(rev.changedDate.date))
  }

  /** A changed field the loop gets past without an exception. */
  predicate ChangeOk(c: Change, rev: Revision, runtime: Runtime) {
    && (IsStateChange(c, runtime) ==> !c.value.Null?)
    && (HistoryKeys(c, runtime).Some? ==> rev.changedDate.DateTime?)
  }

  lemma StateKeyEnds(state: string)
    ensures AuthorKey(StateKey(state, AuthorSuffix)) && !AuthorKey(StateKey(state, DateSuffix))
    ensures StateKey(state, AuthorSuffix)[0] == 's' && StateKey(state, DateSuffix)[0] == 's'
  {
    var author := StateKey(state, AuthorSuffix);
    assert author[|author| - |AuthorSuffix|..] == AuthorSuffix;
    var date := StateKey(state, DateSuffix);
    assert date[|date| - 1] == 'e';
  }

  /** The writes for one changed field of a revision: the state's text is
      taken before the date is cast, so a null state wins over a bad date. */
  function ChangeWrites(c: Change, rev: Revision, runtime: Runtime): (r: Result<seq<Write<Value>>, Error>)
    ensures r.Success? <==> ChangeOk(c, rev, runtime)
    ensures IsStateChange(c, runtime) && c.value.Null? ==> r == Failure(NullReference)
    ensures HistoryKeys(c, runtime).None? && !(IsStateChange(c, runtime) && c.value.Null?) ==> r == Success([])
  {
    if IsStateChange(c, runtime) && c.value.Null? then Failure(NullReference)
    else
      match HistoryKeys(c, runtime)
      case None => Success([])
      case Some(keys) =>
        match CastDate(rev.changedDate)
        case Failure(e) => Failure(e)
        case Success(d) => Success([Write(keys.0, Boxed(rev.changedBy)), Write(keys.1, Plain(runtime.shortDate(d)))])
  }

  /** A changed field writes exactly the keys it hits, each with the
      revision's stamp. */
  lemma ChangeWritesLast(c: Change, rev: Revision, runtime: Runtime, key: string)
    requires ChangeOk(c, rev, runtime)
    ensures LastWrite(ChangeWrites(c, rev, runtime).value, key) == if Hits(c, runtime, key) then Some(Stamp(rev, runtime, key)) else None
  {
    match HistoryKeys(c, runtime)
    case None =>
    case Some(keys) => PairLastWrite(keys.0, keys.1, rev, runtime, key);
  }

  /** An author key then a date key, each given the revision's stamp. */
  lemma PairLastWrite(authorKey: string, dateKey: string, rev: Revision, runtime: Runtime, key: string)
    requires AuthorKey(authorKey) && !AuthorKey(dateKey) && rev.changedDate.DateTime?
    ensures LastWrite([Write(authorKey, Boxed(rev.changedBy)), Write(dateKey, Plain(runtime.shortDate(rev.changedDate.date)))], key)
      == if key == authorKey || key == dateKey then Some(Stamp(rev, runtime, key)) else None
  {
    var ws := [Write(authorKey, Boxed(rev.changedBy)), Write(dateKey, Plain(runtime.shortDate(rev.changedDate.date)))];
    assert ws[..1] == [ws[0]];
    assert ws[..1][..0] == [];
  }

  /** Some changed field of the list writes `key`. */
  predicate AnyHits(changes: seq<Change>, runtime: Runtime, key: string) {
    exists j :: 0 <= j < |changes| && Hits(changes[j], runtime, key)
  }

  /** Every changed field of the list gets past the loop. */
  predicate AllOk(changes: seq<Change>, rev: Revision, runtime: Runtime) {
    forall j :: 0 <= j < |changes| ==> ChangeOk(changes[j], rev, runtime)
  }

  /** The writes for the changed fields of one revision, in order; the first
      exception ends the loop. */
  function ChangesWrites(changes: seq<Change>, rev: Revision, runtime: Runtime): (r: Result<seq<Write<Value>>, Error>)
    ensures r.Success? <==> AllOk(changes, rev, runtime)
    decreases |changes|
  {
    if changes == [] then Success([])
    else
      match ChangeWrites(changes[0], rev, runtime)
      case Failure(e) => Failure(e)
      case Success(own) =>
        var tail := changes[1..];
        assert forall j :: 0 <= j < |tail| ==> tail[j] == changes[j + 1];
        match ChangesWrites(tail, rev, runtime)
        case Failure(e) => Failure(e)
        case Success(more) => Success(own + more)
  }

  /** Within one revision, every key a changed field writes ends up with the
      revision's stamp, whichever field wrote it last. */
  lemma {:induction false} ChangesWritesLast(changes: seq<Change>, rev: Revision, runtime: Runtime, key: string)
    requires AllOk(changes, rev, runtime)
    ensures LastWrite(ChangesWrites(changes, rev, runtime).value, key)
      == if AnyHits(changes, runtime, key) then Some(Stamp(rev, runtime, key)) else None
    decreases |changes|
  {
    if changes != [] {
      var tail := changes[1..];
      assert forall j :: 0 <= j < |tail| ==> tail[j] == changes[j + 1];
      var own := ChangeWrites(changes[0], rev, runtime).value;
      var more := ChangesWrites(tail, rev, runtime).value;
      assert ChangesWrites(changes, rev, runtime).value == own + more;
      ChangeWritesLast(changes[0], rev, runtime, key);
      ChangesWritesLast(tail, rev, runtime, key);
      LastWriteConcat(own, more, key);
      if AnyHits(changes, runtime, key) && !Hits(changes[0], runtime, key) {
        var j :| 0 <= j < |changes| && Hits(changes[j], runtime, key);
        assert Hits(tail[j - 1], runtime, key);
      }
      if AnyHits(tail, runtime, key) {
        var j :| 0 <= j < |tail| && Hits(tail[j], runtime, key);
        assert Hits(changes[j + 1], runtime, key);
      }
    }
  }

  /** Every changed field of every revision gets past the loop. */
  predicate HistoryOk(revisions: seq<Revision>, runtime: Runtime) {
    forall i :: 0 <= i < |revisions| ==> AllOk(revisions[i].changes, revisions[i], runtime)
  }

  /** The history loop over all revisions, in order; the first exception
      ends it. */
  function HistoryWrites(revisions: seq<Revision>, runtime: Runtime): (r: Result<seq<Write<Value>>, Error>)
    ensures r.Success? <==> HistoryOk(revisions, runtime)
    decreases |revisions|
  {
    if revisions == [] then Success([])
    else
      match ChangesWrites(revisions[0].changes, revisions[0], runtime)
      case Failure(e) => Failure(e)
      case Success(own) =>
        var tail := revisions[1..];
        assert forall i :: 0 <= i < |tail| ==> tail[i] == revisions[i + 1];
        match HistoryWrites(tail, runtime)
        case Failure(e) => Failure(e)
        case Success(more) => Success(own + more)
  }

  /** A key no revision writes is absent from the history. */
  lemma {:induction false} HistoryMiss(revisions: seq<Revision>, runtime: Runtime, key: string)
    requires HistoryOk(revisions, runtime)
    requires forall i :: 0 <= i < |revisions| ==> !AnyHits(revisions[i].changes, runtime, key)
    ensures LastWrite(HistoryWrites(revisions, runtime).value, key).None?
    decreases |revisions|
  {
    if revisions != [] {
      var tail := revisions[1..];
      assert forall i :: 0 <= i < |tail| ==> tail[i] == revisions[i + 1];
      var own := ChangesWrites(revisions[0].changes, revisions[0], runtime).value;
      assert HistoryWrites(revisions, runtime).value == own + HistoryWrites(tail, runtime).value;
      ChangesWritesLast(revisions[0].changes, revisions[0], runtime, key);
      HistoryMiss(tail, runtime, key);
      LastWriteConcat(own, HistoryWrites(tail, runtime).value, key);
    }
  }

  /** A history key holds the stamp of the last revision that writes it. */
  lemma {:induction false} HistoryLastWins(revisions: seq<Revision>, runtime: Runtime, key: string, i: int)
    requires HistoryOk(revisions, runtime)
    requires 0 <= i < |revisions| && AnyHits(revisions[i].changes, runtime, key)
    requires forall j :: i < j < |revisions| ==> !AnyHits(revisions[j].changes, runtime, key)
    ensures revisions[i].changedDate.DateTime?
    ensures LastWrite(HistoryWrites(revisions, runtime).value, key) == Some(Stamp(revisions[i], runtime, key))
    decreases |revisions|
  {
    var tail := revisions[1..];
    assert forall j :: 0 <= j < |tail| ==> tail[j] == revisions[j + 1];
    var own := ChangesWrites(revisions[0].changes, revisions[0], runtime).value;
    assert HistoryWrites(revisions, runtime).value == own + HistoryWrites(tail, runtime).value;
    ChangesWritesLast(revisions[0].changes, revisions[0], runtime, key);
    LastWriteConcat(own, HistoryWrites(tail, runtime).value, key);
    if i == 0 {
      HistoryMiss(tail, runtime, key);
    } else {
      HistoryLastWins(tail, runtime, key, i - 1);
    }
  }

  lemma HitsFirstChar(c: Change, runtime: Runtime, key: string)
    requires Hits(c, runtime, key)
    ensures key != [] && (key[0] == 's' || key[0] == 'l')
  {
    if IsStateChange(c, runtime) {
      StateKeyEnds(StateOf(c, runtime).value);
    }
  }

  lemma StateKeyInjective(s: string, t: string, suffix: string)
    ensures StateKey(s, suffix) == StateKey(t, suffix) ==> s == t
  {
    if StateKey(s, suffix) == StateKey(t, suffix) {
      assert |s| == |t|;
      assert StateKey(s, suffix)[|StatePrefix|..|StatePrefix| + |s|] == s;
      assert StateKey(t, suffix)[|StatePrefix|..|StatePrefix| + |t|] == t;
    }
  }

  /** Some changed field of the list sets the state to `state`. */
  predicate MovesTo(changes: seq<Change>, runtime: Runtime, state: string) {
    exists j :: 0 <= j < |changes| && IsStateChange(changes[j], runtime) && StateOf(changes[j], runtime) == Some(state)
  }

  /** Some changed field of the list is the area path. */
  predicate MovesArea(changes: seq<Change>, runtime: Runtime) {
    exists j :: 0 <= j < |changes| && IsAreaPathChange(changes[j], runtime)
  }

  /** A changed field writes a state's keys exactly when it sets that state. */
  lemma StateKeyHit(c: Change, runtime: Runtime, state: string, suffix: string)
    requires suffix == AuthorSuffix || suffix == DateSuffix
    ensures Hits(c, runtime, StateKey(state, suffix)) <==> IsStateChange(c, runtime) && StateOf(c, runtime) == Some(state)
  {
    StateKeyEnds(state);
    if IsStateChange(c, runtime) && StateOf(c, runtime).Some? {
      var t := StateOf(c, runtime).value;
      StateKeyEnds(t);
      StateKeyInjective(state, t, suffix);
    }
  }

  /** A changed field writes the area-path keys exactly when it is an
      area-path change. */
  lemma AreaKeyHit(c: Change, runtime: Runtime, key: string)
    requires key == AreaAuthorKey || key == AreaDateKey
    ensures Hits(c, runtime, key) <==> IsAreaPathChange(c, runtime)
  {
    if IsStateChange(c, runtime) && StateOf(c, runtime).Some? {
      StateKeyEnds(StateOf(c, runtime).value);
    }
  }

  lemma AnyHitsState(changes: seq<Change>, runtime: Runtime, state: string, suffix: string)
    requires suffix == AuthorSuffix || suffix == DateSuffix
    ensures AnyHits(changes, runtime, StateKey(state, suffix)) <==> MovesTo(changes, runtime, state)
  {
    forall j | 0 <= j < |changes| {
      StateKeyHit(changes[j], runtime, state, suffix);
    }
  }

  lemma AnyHitsArea(changes: seq<Change>, runtime: Runtime, key: string)
    requires key == AreaAuthorKey || key == AreaDateKey
    ensures AnyHits(changes, runtime, key) <==> MovesArea(changes, runtime)
  {
    forall j | 0 <= j < |changes| {
      AreaKeyHit(changes[j], runtime, key);
    }
  }

  /** "statechange.<state>.author" and ".date" hold who moved the item to
      `state` last, and when; they are absent if nothing ever did. */
  lemma LastStateChange(revisions: seq<Revision>, runtime: Runtime, state: string, i: int)
    requires HistoryOk(revisions, runtime)
    requires 0 <= i < |revisions| && MovesTo(revisions[i].changes, runtime, state)
    requires forall j :: i < j < |revisions| ==> !MovesTo(revisions[j].changes, runtime, state)
    ensures revisions[i].changedDate.DateTime?
    ensures LastWrite(HistoryWrites(revisions, runtime).value, StateKey(state, AuthorSuffix)) == Some(Boxed(revisions[i].changedBy))
    ensures LastWrite(HistoryWrites(revisions, runtime).value, StateKey(state, DateSuffix))
      == Some(Plain(runtime.shortDate(revisions[i].changedDate.date)))
  {
    StateKeyEnds(state);
    var authorKey, dateKey := StateKey(state, AuthorSuffix), StateKey(state, DateSuffix);
    forall j | 0 <= j < |revisions|
      ensures AnyHits(revisions[j].changes, runtime, authorKey) <==> MovesTo(revisions[j].changes, runtime, state)
      ensures AnyHits(revisions[j].changes, runtime, dateKey) <==> MovesTo(revisions[j].changes, runtime, state)
    {
      AnyHitsState(revisions[j].changes, runtime, state, AuthorSuffix);
      AnyHitsState(revisions[j].changes, runtime, state, DateSuffix);
    }
    HistoryLastWins(revisions, runtime, authorKey, i);
    HistoryLastWins(revisions, runtime, dateKey, i);
  }

  lemma NeverInState(revisions: seq<Revision>, runtime: Runtime, state: string)
    requires HistoryOk(revisions, runtime)
    requires forall j :: 0 <= j < |revisions| ==> !MovesTo(revisions[j].changes, runtime, state)
    ensures LastWrite(HistoryWrites(revisions, runtime).value, StateKey(state, AuthorSuffix)).None?
    ensures LastWrite(HistoryWrites(revisions, runtime).value, StateKey(state, DateSuffix)).None?
  {
    var authorKey, dateKey := StateKey(state, AuthorSuffix), StateKey(state, DateSuffix);
    forall j | 0 <= j < |revisions|
      ensures AnyHits(revisions[j].changes, runtime, authorKey) <==> MovesTo(revisions[j].changes, runtime, state)
      ensures AnyHits(revisions[j].changes, runtime, dateKey) <==> MovesTo(revisions[j].changes, runtime, state)
    {
      AnyHitsState(revisions[j].changes, runtime, state, AuthorSuffix);
      AnyHitsState(revisions[j].changes, runtime, state, DateSuffix);
    }
    HistoryMiss(revisions, runtime, authorKey);
    HistoryMiss(revisions, runtime, dateKey);
  }

  /** "lastareapathchange.author" and ".date" hold who changed the area path
      last, and when. */
  lemma LastAreaPathChange(revisions: seq<Revision>, runtime: Runtime, i: int)
    requires HistoryOk(revisions, runtime)
    requires 0 <= i < |revisions| && MovesArea(revisions[i].changes, runtime)
    requires forall j :: i < j < |revisions| ==> !MovesArea(revisions[j].changes, runtime)
    ensures revisions[i].changedDate.DateTime?
    ensures LastWrite(HistoryWrites(revisions, runtime).value, AreaAuthorKey) == Some(Boxed(revisions[i].changedBy))
    ensures LastWrite(HistoryWrites(revisions, runtime).value, AreaDateKey)
      == Some(Plain(runtime.shortDate(revisions[i].changedDate.date)))
  {
    assert AuthorKey(AreaAuthorKey) && !AuthorKey(AreaDateKey);
    forall j | 0 <= j < |revisions|
      ensures AnyHits(revisions[j].changes, runtime, AreaAuthorKey) <==> MovesArea(revisions[j].changes, runtime)
      ensures AnyHits(revisions[j].changes, runtime, AreaDateKey) <==> MovesArea(revisions[j].changes, runtime)
    {
      AnyHitsArea(revisions[j].changes, runtime, AreaAuthorKey);
      AnyHitsArea(revisions[j].changes, runtime, AreaDateKey);
    }
    HistoryLastWins(revisions, runtime, AreaAuthorKey, i);
    HistoryLastWins(revisions, runtime, AreaDateKey, i);
  }

  lemma NeverMovedArea(revisions: seq<Revision>, runtime: Runtime)
    requires HistoryOk(revisions, runtime)
    requires forall j :: 0 <= j < |revisions| ==> !MovesArea(revisions[j].changes, runtime)
    ensures LastWrite(HistoryWrites(revisions, runtime).value, AreaAuthorKey).None?
    ensures LastWrite(HistoryWrites(revisions, runtime).value, AreaDateKey).None?
  {
    forall j | 0 <= j < |revisions|
      ensures AnyHits(revisions[j].changes, runtime, AreaAuthorKey) <==> MovesArea(revisions[j].changes, runtime)
      ensures AnyHits(revisions[j].changes, runtime, AreaDateKey) <==> MovesArea(revisions[j].changes, runtime)
    {
      AnyHitsArea(revisions[j].changes, runtime, AreaAuthorKey);
      AnyHitsArea(revisions[j].changes, runtime, AreaDateKey);
    }
    HistoryMiss(revisions, runtime, AreaAuthorKey);
    HistoryMiss(revisions, runtime, AreaDateKey);
  }

  // ---------------------------------------------------------------------------
  // The dictionaries

  /** Every text the fill takes from HTML loads: the description, and the
      thread when HTML fields are skipped. */
  predicate TextsLoad(item: WorkItem, comments: seq<Comment>, skipHtmlFields: bool, env: Env) {
    env.html.load(item.description).Success? && !ThreadFails(comments, skipHtmlFields, env)
  }

  /** Nothing the fill runs throws: the texts load and the history loop
      completes. */
  predicate FillOk(item: WorkItem, comments: seq<Comment>, skipHtmlFields: bool, env: Env) {
    TextsLoad(item, comments, skipHtmlFields, env) && HistoryOk(item.revisions, env.runtime)
  }

  /** Every assignment to the temporary dictionary, in program order: fixed
      keys, fields, comments, then the history. */
  function TemporaryWrites(item: WorkItem, comments: seq<Comment>, skipHtmlFields: bool, env: Env, history: seq<Write<Value>>): seq<Write<Value>>
    requires TextsLoad(item, comments, skipHtmlFields, env)
  {
    FixedWrites(item, skipHtmlFields, env).value
      + FieldWrites(item.fields, item, env)
      + [Write(CommentsKey, CommentsValue(item, comments, skipHtmlFields, env).value)]
      + history
  }

  /** The temporary dictionary, or the first exception thrown while it is
      filled: loading the description, then loading the thread, then the
      history loop. */
  function TemporaryDictionary(item: WorkItem, comments: seq<Comment>, skipHtmlFields: bool, env: Env): (r: Result<Ordered<Value>, Error>)
    ensures r.Success? <==> FillOk(item, comments, skipHtmlFields, env)
    ensures env.html.load(item.description).Failure? ==>
      r == Failure(HtmlLoadError(env.html.load(item.description).error))
    ensures env.html.load(item.description).Success? && ThreadFails(comments, skipHtmlFields, env) ==>
      r == Failure(HtmlLoadError(env.html.load(CommentsHtml(comments, env.runtime)).error))
    ensures TextsLoad(item, comments, skipHtmlFields, env) && !HistoryOk(item.revisions, env.runtime) ==>
      r == Failure(HistoryWrites(item.revisions, env.runtime).error)
    ensures r.Success? ==> Valid(r.value)
    ensures r.Success? ==> forall i :: 0 <= i < |FixedKeys| ==> FixedKeys[i] in r.value.entries
    ensures r.Success? ==> CommentsKey in r.value.entries
  {
    match FixedWrites(item, skipHtmlFields, env)
    case Failure(e) => Failure(e)
    case Success(_) =>
      match CommentsValue(item, comments, skipHtmlFields, env)
      case Failure(e) => Failure(e)
      case Success(_) =>
        match HistoryWrites(item.revisions, env.runtime)
        case Failure(e) => Failure(e)
        case Success(history) =>
          TemporaryWritesCover(item, comments, skipHtmlFields, env, history);
          Success(PutAll(Empty(), TemporaryWrites(item, comments, skipHtmlFields, env, history)))
  }

  /** The fixed keys and the comments key are always written. */
  lemma TemporaryWritesCover(item: WorkItem, comments: seq<Comment>, skipHtmlFields: bool, env: Env, history: seq<Write<Value>>)
    requires TextsLoad(item, comments, skipHtmlFields, env)
    ensures forall i :: 0 <= i < |FixedKeys| ==> LastWrite(TemporaryWrites(item, comments, skipHtmlFields, env, history), FixedKeys[i]).Some?
    ensures LastWrite(TemporaryWrites(item, comments, skipHtmlFields, env, history), CommentsKey).Some?
  {
    var fixed := FixedWrites(item, skipHtmlFields, env).value;
    var fields := FieldWrites(item.fields, item, env);
    var comment := [Write(CommentsKey, CommentsValue(item, comments, skipHtmlFields, env).value)];
    forall i | 0 <= i < |FixedKeys|
      ensures LastWrite(TemporaryWrites(item, comments, skipHtmlFields, env, history), FixedKeys[i]).Some?
    {
      var key := FixedKeys[i];
      assert fixed[i].key == key;
      LastWriteConcat(fixed, fields, key);
      LastWriteConcat(fixed + fields, comment, key);
      LastWriteConcat(fixed + fields + comment, history, key);
    }
    assert comment[0].key == CommentsKey;
    LastWriteConcat(fixed + fields, comment, CommentsKey);
    LastWriteConcat(fixed + fields + comment, history, CommentsKey);
  }

  /** The entry for a key is the value its last write stores. */
  lemma TemporaryEntry(item: WorkItem, comments: seq<Comment>, skipHtmlFields: bool, env: Env, key: string, v: Value)
    requires FillOk(item, comments, skipHtmlFields, env)
    requires LastWrite(TemporaryWrites(item, comments, skipHtmlFields, env, HistoryWrites(item.revisions, env.runtime).value), key) == Some(v)
    ensures key in TemporaryDictionary(item, comments, skipHtmlFields, env).value.entries
    ensures TemporaryDictionary(item, comments, skipHtmlFields, env).value.entries[key] == v
  {
    var ws := TemporaryWrites(item, comments, skipHtmlFields, env, HistoryWrites(item.revisions, env.runtime).value);
    assert TemporaryDictionary(item, comments, skipHtmlFields, env).value.entries == Assign(map[], ws);
  }

  lemma FixedKeysStart(i: int)
    requires 0 <= i < |FixedKeys|
    ensures FixedKeys[i] != CommentsKey && FixedKeys[i] != []
    ensures FixedKeys[i][0] != 's' && FixedKeys[i][0] != 'l'
    ensures forall j :: i < j < |FixedKeys| ==> FixedKeys[j] != FixedKeys[i]
  {
  }

  /** No changed field of any revision writes `key`. */
  predicate NoHistoryKey(revisions: seq<Revision>, runtime: Runtime, key: string) {
    forall i :: 0 <= i < |revisions| ==> !AnyHits(revisions[i].changes, runtime, key)
  }

  lemma NoHistoryKeyByFirstChar(revisions: seq<Revision>, runtime: Runtime, key: string)
    requires key != [] && key[0] != 's' && key[0] != 'l'
    ensures NoHistoryKey(revisions, runtime, key)
  {
    forall i, j | 0 <= i < |revisions| && 0 <= j < |revisions[i].changes|
      ensures !Hits(revisions[i].changes[j], runtime, key)
    {
      if Hits(revisions[i].changes[j], runtime, key) {
        HitsFirstChar(revisions[i].changes[j], runtime, key);
      }
    }
  }

  /** A fixed key that no field claims keeps its fixed value; the history and
      the comments never touch it. */
  lemma FixedKeyKept(item: WorkItem, comments: seq<Comment>, skipHtmlFields: bool, env: Env, i: int)
    requires FillOk(item, comments, skipHtmlFields, env) && 0 <= i < |FixedKeys|
    requires forall j :: 0 <= j < |item.fields| ==> !Claims(item.fields[j], env.runtime, FixedKeys[i])
    ensures TemporaryDictionary(item, comments, skipHtmlFields, env).value.entries[FixedKeys[i]]
      == FixedWrites(item, skipHtmlFields, env).value[i].value
  {
    var key := FixedKeys[i];
    var fixed := FixedWrites(item, skipHtmlFields, env).value;
    var fields := FieldWrites(item.fields, item, env);
    var comment := [Write(CommentsKey, CommentsValue(item, comments, skipHtmlFields, env).value)];
    var history := HistoryWrites(item.revisions, env.runtime).value;
    FixedKeysStart(i);
    NoHistoryKeyByFirstChar(item.revisions, env.runtime, key);
    HistoryMiss(item.revisions, env.runtime, key);
    FieldWritesMiss(item.fields, item, env, key);
    LastWriteAt(fixed, i, key);
    LastWriteConcat(fixed, fields, key);
    LastWriteConcat(fixed + fields, comment, key);
    LastWriteConcat(fixed + fields + comment, history, key);
    assert LastWrite(fixed + fields + comment + history, key) == Some(fixed[i].value);
    TemporaryEntry(item, comments, skipHtmlFields, env, key, fixed[i].value);
  }

  /** The "description" key keeps the description as the fixed keys set it:
      the field named "Description" is skipped for exactly that reason, so
      only a field whose reference name is "description" could replace it. */
  lemma DescriptionKept(item: WorkItem, comments: seq<Comment>, skipHtmlFields: bool, env: Env)
    requires FillOk(item, comments, skipHtmlFields, env)
    requires forall j :: 0 <= j < |item.fields| ==> item.fields[j].referenceName != "description"
    ensures "description" in TemporaryDictionary(item, comments, skipHtmlFields, env).value.entries
    ensures TemporaryDictionary(item, comments, skipHtmlFields, env).value.entries["description"]
      == if skipHtmlFields then Plain(GetTxtFromHtmlContent(item.description, env).value)
         else Embedded(item, item.description, env)
  {
    forall j | 0 <= j < |item.fields|
      ensures !Claims(item.fields[j], env.runtime, FixedKeys[2])
    {
      if item.fields[j].name == "description" {
        assert Special(item.fields[j], env.runtime);
      }
    }
    FixedKeyKept(item, comments, skipHtmlFields, env, 2);
  }

  /** The "comments" key holds the thread, whatever a field wrote there before. */
  lemma CommentsKept(item: WorkItem, comments: seq<Comment>, skipHtmlFields: bool, env: Env)
    requires FillOk(item, comments, skipHtmlFields, env)
    ensures CommentsKey in TemporaryDictionary(item, comments, skipHtmlFields, env).value.entries
    ensures TemporaryDictionary(item, comments, skipHtmlFields, env).value.entries[CommentsKey]
      == CommentsValue(item, comments, skipHtmlFields, env).value
  {
    var fixed := FixedWrites(item, skipHtmlFields, env).value;
    var fields := FieldWrites(item.fields, item, env);
    var comment := [Write(CommentsKey, CommentsValue(item, comments, skipHtmlFields, env).value)];
    var history := HistoryWrites(item.revisions, env.runtime).value;
    NoHistoryKeyByFirstChar(item.revisions, env.runtime, CommentsKey);
    HistoryMiss(item.revisions, env.runtime, CommentsKey);
    LastWriteConcat(fixed + fields, comment, CommentsKey);
    LastWriteConcat(fixed + fields + comment, history, CommentsKey);
    assert LastWrite(fixed + fields + comment + history, CommentsKey) == Some(comment[0].value);
    TemporaryEntry(item, comments, skipHtmlFields, env, CommentsKey, comment[0].value);
  }

  /** A field's name and reference name both hold its value, unless a later
      field, the comments or the history write the same key; fields override
      the fixed keys. */
  lemma FieldKept(item: WorkItem, comments: seq<Comment>, skipHtmlFields: bool, env: Env, i: int, key: string)
    requires FillOk(item, comments, skipHtmlFields, env)
    requires 0 <= i < |item.fields| && Claims(item.fields[i], env.runtime, key)
    requires forall j :: i < j < |item.fields| ==> !Claims(item.fields[j], env.runtime, key)
    requires key != CommentsKey && NoHistoryKey(item.revisions, env.runtime, key)
    ensures key in TemporaryDictionary(item, comments, skipHtmlFields, env).value.entries
    ensures TemporaryDictionary(item, comments, skipHtmlFields, env).value.entries[key]
      == GetValue(item.fields[i], item, env)
  {
    var fixed := FixedWrites(item, skipHtmlFields, env).value;
    var fields := FieldWrites(item.fields, item, env);
    var comment := [Write(CommentsKey, CommentsValue(item, comments, skipHtmlFields, env).value)];
    var history := HistoryWrites(item.revisions, env.runtime).value;
    var v := GetValue(item.fields[i], item, env);
    HistoryMiss(item.revisions, env.runtime, key);
    FieldWritesLast(item.fields, item, env, i, key);
    LastWriteConcat(fixed, fields, key);
    LastWriteConcat(fixed + fields, comment, key);
    LastWriteConcat(fixed + fields + comment, history, key);
    assert LastWrite(fixed + fields + comment + history, key) == Some(v);
    TemporaryEntry(item, comments, skipHtmlFields, env, key, v);
  }

  /** A history key holds the stamp of the last revision that writes it,
      whatever the fields or the comments wrote before. */
  lemma HistoryKept(item: WorkItem, comments: seq<Comment>, skipHtmlFields: bool, env: Env, key: string, i: int)
    requires FillOk(item, comments, skipHtmlFields, env)
    requires 0 <= i < |item.revisions| && AnyHits(item.revisions[i].changes, env.runtime, key)
    requires forall j :: i < j < |item.revisions| ==> !AnyHits(item.revisions[j].changes, env.runtime, key)
    ensures item.revisions[i].changedDate.DateTime?
    ensures key in TemporaryDictionary(item, comments, skipHtmlFields, env).value.entries
    ensures TemporaryDictionary(item, comments, skipHtmlFields, env).value.entries[key]
      == Stamp(item.revisions[i], env.runtime, key)
  {
    var fixed := FixedWrites(item, skipHtmlFields, env).value;
    var fields := FieldWrites(item.fields, item, env);
    var comment := [Write(CommentsKey, CommentsValue(item, comments, skipHtmlFields, env).value)];
    var history := HistoryWrites(item.revisions, env.runtime).value;
    HistoryLastWins(item.revisions, env.runtime, key, i);
    var v := Stamp(item.revisions[i], env.runtime, key);
    LastWriteConcat(fixed + fields + comment, history, key);
    assert LastWrite(fixed + fields + comment + history, key) == Some(v);
    TemporaryEntry(item, comments, skipHtmlFields, env, key, v);
  }

  /** `FillPropertyDictionary`: the exceptions that escape are a failed load
      of the description or (when HTML fields are skipped) of the thread, and
      those of the history loop; then the caller's dictionary is not touched,
      since the copy runs last. Otherwise no entry is removed and every fixed
      key and the comments arrive under their prefixed key. */
  function FillPropertyDictionary(
    item: WorkItem, comments: seq<Comment>, dictionary: map<string, Value>,
    cmp: Comparer, prefix: string, skipHtmlFields: bool, env: Env): (r: Result<map<string, Value>, Error>)
    requires KeyedBySlot(cmp, dictionary)
    ensures r.Failure? <==> !FillOk(item, comments, skipHtmlFields, env)
    ensures r.Failure? ==> r.error == TemporaryDictionary(item, comments, skipHtmlFields, env).error
    ensures r.Success? ==> forall s :: s in dictionary ==> s in r.value
    ensures r.Success? && Canonical(cmp) ==> KeyedBySlot(cmp, r.value)
    ensures r.Success? ==> forall i :: 0 <= i < |FixedKeys| ==> Slot(cmp, prefix + FixedKeys[i]) in r.value
    ensures r.Success? ==> Slot(cmp, prefix + CommentsKey) in r.value
  {
    match TemporaryDictionary(item, comments, skipHtmlFields, env)
    case Failure(e) => Failure(e)
    case Success(temp) =>
      EntriesHit(temp, prefix, cmp);
      Success(CopyWithPrefix(temp, prefix, dictionary, cmp))
  }

  /** With an ordinal comparer, every entry of the temporary dictionary is
      found under its prefixed key, with its value. */
  lemma FillOrdinal(
    item: WorkItem, comments: seq<Comment>, dictionary: map<string, Value>,
    prefix: string, skipHtmlFields: bool, env: Env, key: string)
    requires FillOk(item, comments, skipHtmlFields, env)
    requires key in TemporaryDictionary(item, comments, skipHtmlFields, env).value.entries
    ensures prefix + key in FillPropertyDictionary(item, comments, dictionary, Ordinal, prefix, skipHtmlFields, env).value
    ensures FillPropertyDictionary(item, comments, dictionary, Ordinal, prefix, skipHtmlFields, env).value[prefix + key]
      == TemporaryDictionary(item, comments, skipHtmlFields, env).value.entries[key]
  {
    CopyOrdinal(TemporaryDictionary(item, comments, skipHtmlFields, env).value, prefix, dictionary, key);
  }

  /** Of the temporary keys that land in the same slot of the caller's
      dictionary, the one written first in the temporary dictionary gives it
      its value: a field "Title" overrides the fixed "title" in a dictionary
      that ignores case. */
  lemma FillLastCollisionWins(
    item: WorkItem, comments: seq<Comment>, dictionary: map<string, Value>,
    cmp: Comparer, prefix: string, skipHtmlFields: bool, env: Env, i: int)
    requires FillOk(item, comments, skipHtmlFields, env) && KeyedBySlot(cmp, dictionary)
    requires var temp := TemporaryDictionary(item, comments, skipHtmlFields, env).value;
      && 0 <= i < |temp.order|
      && forall j :: i < j < |temp.order| ==> Slot(cmp, prefix + temp.order[j]) != Slot(cmp, prefix + temp.order[i])
    ensures var temp := TemporaryDictionary(item, comments, skipHtmlFields, env).value;
      var r := FillPropertyDictionary(item, comments, dictionary, cmp, prefix, skipHtmlFields, env).value;
      && Slot(cmp, prefix + temp.order[i]) in r
      && r[Slot(cmp, prefix + temp.order[i])] == temp.entries[temp.order[i]]
  {
    FillCopies(item, comments, dictionary, cmp, prefix, skipHtmlFields, env);
    CopyLastCollisionWins(TemporaryDictionary(item, comments, skipHtmlFields, env).value, prefix, dictionary, cmp, i);
  }

  lemma FillCopies(
    item: WorkItem, comments: seq<Comment>, dictionary: map<string, Value>,
    cmp: Comparer, prefix: string, skipHtmlFields: bool, env: Env)
    requires FillOk(item, comments, skipHtmlFields, env) && KeyedBySlot(cmp, dictionary)
    ensures FillPropertyDictionary(item, comments, dictionary, cmp, prefix, skipHtmlFields, env).value
      == CopyWithPrefix(TemporaryDictionary(item, comments, skipHtmlFields, env).value, prefix, dictionary, cmp)
  {
  }

  /** An entry of the caller's dictionary whose slot no temporary key lands
      in is left as it was. */
  lemma FillKeepsOthers(
    item: WorkItem, comments: seq<Comment>, dictionary: map<string, Value>,
    cmp: Comparer, prefix: string, skipHtmlFields: bool, env: Env, s: string)
    requires FillOk(item, comments, skipHtmlFields, env) && KeyedBySlot(cmp, dictionary) && s in dictionary
    requires forall k :: k in TemporaryDictionary(item, comments, skipHtmlFields, env).value.entries ==> Slot(cmp, prefix + k) != s
    ensures s in FillPropertyDictionary(item, comments, dictionary, cmp, prefix, skipHtmlFields, env).value
    ensures FillPropertyDictionary(item, comments, dictionary, cmp, prefix, skipHtmlFields, env).value[s] == dictionary[s]
  {
    var temp := TemporaryDictionary(item, comments, skipHtmlFields, env).value;
    MissedSlot(temp, prefix, cmp, s);
    FillCopies(item, comments, dictionary, cmp, prefix, skipHtmlFields, env);
    CopyKeepsOthers(temp, prefix, dictionary, cmp, s);
  }

  /** `CreateDictionaryFromWorkItem`: a new dictionary that ignores case,
      filled with no prefix and with HTML fields embedded. */
  function CreateDictionaryFromWorkItem(item: WorkItem, comments: seq<Comment>, env: Env): (r: Result<map<string, Value>, Error>)
    ensures r.Failure? <==> !FillOk(item, comments, false, env)
    ensures r.Failure? <==> env.html.load(item.description).Failure? || !HistoryOk(item.revisions, env.runtime)
    ensures r.Success? ==> forall i :: 0 <= i < |FixedKeys| ==> FoldCase(env.runtime.upper, FixedKeys[i]) in r.value
    ensures r.Success? ==> FoldCase(env.runtime.upper, CommentsKey) in r.value
  {
    assert forall k: string :: [] + k == k;
    FillPropertyDictionary(item, comments, map[], OrdinalIgnoreCase(env.runtime.upper), [], false, env)
  }

  /** The keys of the created dictionary are the case-folded keys of the
      temporary dictionary and nothing else. */
  lemma CreateDictionaryKeys(item: WorkItem, comments: seq<Comment>, env: Env, s: string)
    requires FillOk(item, comments, false, env)
    ensures s in CreateDictionaryFromWorkItem(item, comments, env).value <==>
      exists k :: k in TemporaryDictionary(item, comments, false, env).value.entries && s == FoldCase(env.runtime.upper, k)
  {
    var cmp := OrdinalIgnoreCase(env.runtime.upper);
    var temp := TemporaryDictionary(item, comments, false, env).value;
    CreateDictionaryCopies(item, comments, env);
    if Hit(temp.order, [], cmp, s) {
      var i :| 0 <= i < |temp.order| && Slot(cmp, [] + temp.order[i]) == s;
      assert [] + temp.order[i] == temp.order[i];
      assert temp.order[i] in temp.entries;
    }
    if exists k :: k in temp.entries && s == FoldCase(env.runtime.upper, k) {
      var k :| k in temp.entries && s == FoldCase(env.runtime.upper, k);
      var i :| 0 <= i < |temp.order| && temp.order[i] == k;
      assert [] + temp.order[i] == temp.order[i];
      assert Slot(cmp, [] + temp.order[i]) == s;
    }
  }

  lemma CreateDictionaryCopies(item: WorkItem, comments: seq<Comment>, env: Env)
    requires FillOk(item, comments, false, env)
    ensures CreateDictionaryFromWorkItem(item, comments, env).value
      == CopyWithPrefix(TemporaryDictionary(item, comments, false, env).value, [], map[], OrdinalIgnoreCase(env.runtime.upper))
  {
  }
}
