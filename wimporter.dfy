/**
 * The import pipeline of the wimporter plugin: a staging bag is created for
 * each submission, the submitted wiki's tiddlers are put into it, the user
 * is shown what was staged and where it may go, and the chosen tiddlers are
 * then copied into the destination bag and the staging bag is deleted.
 */
module Wimporter {
  import opened Wrappers
  import opened Sorting
  import opened Policies
  import opened Stores

  /** Generated staging-bag names are this prefix followed by a fresh UUID. */
  const StagingPrefix := "import-tmp-"

  /** Bags whose names start with this are kept out of the destination list (no dash). */
  const StagingMarker := "import-tmp"

  const MsgNoSuchBag := "chosen bag does not exist"
  const MsgMayNotWrite := "you may not write to that bag"
  const MsgMissingField := "missing field info"

  // ---------------------------------------------------------------------------
  // Requests, responses and the foreign calls

  /**
   * The exceptions a foreign call of the import branch may raise. The first three
   * are caught: AttributeError (content was not a wiki), ValueError (file or URL
   * could not be read) and OSError/URLError. `Uncaught` is any other exception,
   * which escapes the handler as a server error.
   */
  datatype ErrorKind = AttributeError | ValueError | ReadError | Uncaught

  datatype ImportError = ImportError(kind: ErrorKind, detail: string)

  /** The fixed start of the form message for a caught exception kind. */
  function MessagePrefix(k: ErrorKind): string
    requires k != Uncaught
  {
    match k
    case AttributeError => "that was not a wiki "
    case ValueError => "could not read that "
    case ReadError => "trouble reading: "
  }

  /** The message shown on the upload form for a caught import error. */
  function ErrorMessage(e: ImportError): string
    requires e.kind != Uncaught
  {
    MessagePrefix(e.kind) + e.detail
  }

  /** The form message identifies both the kind of the caught exception and its text. */
  lemma ErrorMessageInjective(e1: ImportError, e2: ImportError)
    requires e1.kind != Uncaught && e2.kind != Uncaught
    requires ErrorMessage(e1) == ErrorMessage(e2)
    ensures e1 == e2
  {
    var p1, p2 := MessagePrefix(e1.kind), MessagePrefix(e2.kind);
    assert ErrorMessage(e1)[0] == p1[0] && ErrorMessage(e1)[1] == p1[1];
    assert ErrorMessage(e2)[0] == p2[0] && ErrorMessage(e2)[1] == p2[1];
    assert p1[0] == 'c' <==> e1.kind == ValueError;
    assert p2[0] == 'c' <==> e2.kind == ValueError;
    assert p1[1] == 'h' <==> e1.kind == AttributeError;
    assert p2[1] == 'h' <==> e2.kind == AttributeError;
    assert e1.detail == ErrorMessage(e1)[|p1|..];
    assert e2.detail == ErrorMessage(e2)[|p2|..];
  }

  /** How the handler answers an import error: the form with its message, or a server error. */
  function ImportFailure(queryBag: Option<string>, e: ImportError): Response
  {
    if e.kind == Uncaught then ServerError else FormPage(queryBag, ErrorMessage(e))
  }

  /** An uploaded file field: its file name (empty when nothing was uploaded) and its decoded text. */
  datatype FileField = FileField(filename: string, content: string)

  /** The submitted form, already parsed; a field that was not submitted is None. */
  datatype Form = Form(
    url: Option<string>,
    file: Option<FileField>,
    tmpBag: Option<string>,
    targetBag: Option<string>,
    newBag: Option<string>,
    tiddler: seq<string>)

  /** What the chooser page is given: staged titles, the staging bag, the fixed bag and the destinations. */
  datatype ChooserView = ChooserView(titles: seq<string>, tmpBag: string, fixedBag: Option<string>, bags: seq<string>)

  /**
   * The response: the upload form with a message, the chooser, an HTTP 302
   * redirect, or the server error an uncaught exception becomes.
   */
  datatype Response =
    | FormPage(bag: Option<string>, message: string)
    | ChooserPage(view: ChooserView)
    | Redirect(location: string)
    | ServerError

  /** `wiki_string_to_tiddlers` on an already-decoded text. */
  type Parser = string -> Result<seq<Tiddler>, ImportError>

  /** `import_one`: the structured import of a URL, giving the tiddlers it stores. */
  type StructuredImport = string -> Result<seq<Tiddler>, ImportError>

  /** `get_url_handle` followed by reading and decoding the handle. */
  type Fetcher = string -> Result<string, ImportError>

  // ---------------------------------------------------------------------------
  // Staging bags

  function StagingName(uuid: string): string
  {
    StagingPrefix + uuid
  }

  /** The name `_make_bag` uses: the requested one, or a generated one when it is missing or empty. */
  function BagName(requested: Option<string>, uuid: string): string
  {
    if requested.Some? && requested.value != "" then requested.value else StagingName(uuid)
  }

  /**
   * Creates (or replaces) a bag with the default policy restricted to
   * `user`. `uuid` is the UUID the source draws; it is not yet in use.
   */
  method MakeBag(store: Store, user: string, requested: Option<string>, uuid: string)
    returns (name: string, policy: Policy)
    requires store.Valid() && StagingName(uuid) !in store.bags
    modifies store
    ensures store.Valid()
    ensures name == BagName(requested, uuid)
    ensures (requested.None? || requested.value == "") ==> name == StagingName(uuid) && name !in old(store.bags)
    ensures requested.Some? && requested.value != "" ==> name == requested.value
    ensures policy == Restricted(user, DefaultPolicy)
    ensures store.bags == old(store.bags)[name := policy] && store.tiddlers == old(store.tiddlers)
  {
    name := BagName(requested, uuid);
    policy := SetRestrictedPolicy(user, DefaultPolicy);
    store.PutBag(name, policy);
  }

  /** A generated staging name is always kept out of the destination list. */
  lemma StagingNamesAreMarked(uuid: string)
    ensures StartsWith(StagingName(uuid), StagingMarker)
  {
    assert StagingName(uuid)[..|StagingMarker|] == StagingMarker;
  }

  /** A freshly generated staging bag holds no tiddlers. */
  lemma FreshStagingBagIsEmpty(bags: map<string, Policy>, m: TiddlerMap, uuid: string)
    requires forall k :: k in m ==> k.0 in bags
    requires StagingName(uuid) !in bags
    ensures Titles(m, StagingName(uuid)) == {}
  {
  }

  // ---------------------------------------------------------------------------
  // Ingestion

  /** The elements of a sequence of titles, as a set. */
  function Elems(s: seq<string>): set<string>
  {
    set x | x in s
  }

  /** The tiddler map after putting each of `ts`, in order, into `bag`. */
  function Ingested(m: TiddlerMap, bag: string, ts: seq<Tiddler>): TiddlerMap
    decreases |ts|
  {
    if ts == [] then m
    else Ingested(m, bag, ts[..|ts| - 1])[(bag, ts[|ts| - 1].title) := ts[|ts| - 1].text]
  }

  /** Ingestion adds exactly the parsed titles to `bag`. */
  lemma {:induction false} IngestedKeys(m: TiddlerMap, bag: string, ts: seq<Tiddler>)
    ensures forall k :: k in Ingested(m, bag, ts) <==> k in m || (k.0 == bag && k.1 in TitlesOf(ts))
  {
    if ts != [] {
      var init := ts[..|ts| - 1];
      IngestedKeys(m, bag, init);
      assert TitlesOf(ts) == TitlesOf(init) + [ts[|ts| - 1].title];
    }
  }

  /** Tiddlers of other bags, and titles that were not parsed, are left as they were. */
  lemma {:induction false} IngestedElsewhereUnchanged(m: TiddlerMap, bag: string, ts: seq<Tiddler>, k: (string, string))
    requires k.0 != bag || k.1 !in TitlesOf(ts)
    ensures k in Ingested(m, bag, ts) <==> k in m
    ensures k in m ==> Ingested(m, bag, ts)[k] == m[k]
  {
    if ts != [] {
      var init := ts[..|ts| - 1];
      assert TitlesOf(ts) == TitlesOf(init) + [ts[|ts| - 1].title];
      IngestedElsewhereUnchanged(m, bag, init, k);
    }
  }

  /** Of several parsed tiddlers with one title, the last one is what the bag keeps. */
  lemma {:induction false} IngestedLastWins(m: TiddlerMap, bag: string, ts: seq<Tiddler>, i: nat)
    requires i < |ts|
    requires forall j :: i < j < |ts| ==> ts[j].title != ts[i].title
    ensures (bag, ts[i].title) in Ingested(m, bag, ts)
    ensures Ingested(m, bag, ts)[(bag, ts[i].title)] == ts[i].text
  {
    if i < |ts| - 1 {
      IngestedLastWins(m, bag, ts[..|ts| - 1], i);
    }
  }

  /** Ingesting two lists one after the other is ingesting their concatenation. */
  lemma {:induction false} IngestedAppend(m: TiddlerMap, bag: string, a: seq<Tiddler>, b: seq<Tiddler>)
    ensures Ingested(m, bag, a + b) == Ingested(Ingested(m, bag, a), bag, b)
  {
    if b == [] {
      assert a + b == a;
    } else {
      var ab := a + b;
      assert ab[..|ab| - 1] == a + b[..|b| - 1];
      IngestedAppend(m, bag, a, b[..|b| - 1]);
    }
  }

  /** Into an empty staging bag, ingestion stores one tiddler per distinct parsed title. */
  lemma IngestionCompleteness(m: TiddlerMap, bag: string, ts: seq<Tiddler>)
    requires Titles(m, bag) == {}
    ensures Titles(Ingested(m, bag, ts), bag) == Elems(TitlesOf(ts))
  {
    IngestedKeys(m, bag, ts);
    var r := Ingested(m, bag, ts);
    forall t | t in TitlesOf(ts) ensures t in Titles(r, bag) {
      assert (bag, t) in r;
    }
    assert forall k :: k in m && k.0 == bag ==> k.1 in Titles(m, bag);
    forall t | t in Titles(r, bag) ensures t in TitlesOf(ts) {
      assert (bag, t) in r;
    }
  }

  /** The loop of `_process_file`: re-homes each tiddler to `bag` and puts it, in order. */
  method Ingest(store: Store, ts: seq<Tiddler>, bag: string)
    requires store.Valid() && bag in store.bags
    modifies store
    ensures store.Valid() && store.bags == old(store.bags)
    ensures store.tiddlers == Ingested(old(store.tiddlers), bag, ts)
  {
    for i := 0 to |ts|
      invariant store.Valid() && store.bags == old(store.bags)
      invariant store.tiddlers == Ingested(old(store.tiddlers), bag, ts[..i])
    {
      var tiddler := ts[i].(bag := bag);
      assert ts[..i + 1][..i] == ts[..i];
      store.PutTiddler(tiddler);
    }
    assert ts[..|ts|] == ts;
  }

  /** Parses an uploaded (or fetched) wiki text and ingests it; a parse error stores nothing. */
  method ProcessFile(store: Store, content: string, parse: Parser, bag: string) returns (err: Option<ImportError>)
    requires store.Valid() && bag in store.bags
    modifies store
    ensures store.Valid() && store.bags == old(store.bags)
    ensures parse(content).Err? ==> err == Some(parse(content).error) && store.tiddlers == old(store.tiddlers)
    ensures parse(content).Ok? ==> err.None? && store.tiddlers == Ingested(old(store.tiddlers), bag, parse(content).value)
  {
    var parsed := parse(content);
    if parsed.Err? {
      return Some(parsed.error);
    }
    Ingest(store, parsed.value, bag);
    err := None;
  }

  /**
   * The tiddlers a URL yields: the structured import first; only when that
   * raises ValueError, the raw text at the URL parsed as a wiki.
   */
  function UrlTiddlers(url: string, importOne: StructuredImport, fetch: Fetcher, parse: Parser): Result<seq<Tiddler>, ImportError>
  {
    match importOne(url)
    case Ok(ts) => Ok(ts)
    case Err(e) =>
      if e.kind != ValueError then Err(e)
      else
        match fetch(url)
        case Err(e2) => Err(e2)
        case Ok(raw) => parse(raw)
  }

  /** A successful structured import is used as it is; the raw fetch is never consulted. */
  lemma StructuredImportFirst(url: string, importOne: StructuredImport, fetch: Fetcher, parse: Parser)
    requires importOne(url).Ok?
    ensures UrlTiddlers(url, importOne, fetch, parse) == importOne(url)
  {
  }

  /** A content-format error of the structured import falls back to parsing the raw wiki text. */
  lemma FallbackOnValueError(url: string, importOne: StructuredImport, fetch: Fetcher, parse: Parser)
    requires importOne(url).Err? && importOne(url).error.kind == ValueError
    requires fetch(url).Ok?
    ensures UrlTiddlers(url, importOne, fetch, parse) == parse(fetch(url).value)
  {
  }

  /** Any other error of the structured import is raised without trying the fallback. */
  lemma OtherImportErrorsPropagate(url: string, importOne: StructuredImport, fetch: Fetcher, parse: Parser)
    requires importOne(url).Err? && importOne(url).error.kind != ValueError
    ensures UrlTiddlers(url, importOne, fetch, parse) == importOne(url)
  {
  }

  /** Imports a URL into `bag` with the fallback order of `UrlTiddlers`. */
  method ProcessUrl(store: Store, url: string, importOne: StructuredImport, fetch: Fetcher, parse: Parser, bag: string)
    returns (err: Option<ImportError>)
    requires store.Valid() && bag in store.bags
    modifies store
    ensures store.Valid() && store.bags == old(store.bags)
    ensures UrlTiddlers(url, importOne, fetch, parse).Err? ==>
      err == Some(UrlTiddlers(url, importOne, fetch, parse).error) && store.tiddlers == old(store.tiddlers)
    ensures UrlTiddlers(url, importOne, fetch, parse).Ok? ==>
      err.None? && store.tiddlers == Ingested(old(store.tiddlers), bag, UrlTiddlers(url, importOne, fetch, parse).value)
  {
    var structured := importOne(url);
    if structured.Ok? {
      // import_one puts the tiddlers it finds into the bag itself
      Ingest(store, structured.value, bag);
      return None;
    }
    if structured.error.kind != ValueError {
      return Some(structured.error);
    }
    var raw := fetch(url);
    if raw.Err? {
      return Some(raw.error);
    }
    err := ProcessFile(store, raw.value, parse, bag);
  }

  /** How the import branch of a submission ends. */
  datatype Stop = Completed | Raised(error: ImportError) | MissingKey

  /** What the import branch stores in the staging bag, and how it ends. */
  datatype Ingestion = Ingestion(stored: seq<Tiddler>, stop: Stop)

  /**
   * The import branch of `wimport`: the `url` field is read
   * first, then the `file` field; each missing field is an uncaught KeyError.
   */
  function Submitted(url: Option<string>, file: Option<FileField>, importOne: StructuredImport, fetch: Fetcher, parse: Parser): Ingestion
  {
    if url.None? then Ingestion([], MissingKey)
    else
      var fromUrl := if url.value != "" then UrlTiddlers(url.value, importOne, fetch, parse) else Ok([]);
      match fromUrl
      case Err(e) => Ingestion([], Raised(e))
      case Ok(ts) =>
        if file.None? then Ingestion(ts, MissingKey)
        else if file.value.filename == "" then Ingestion(ts, Completed)
        else match parse(file.value.content)
          case Err(e) => Ingestion(ts, Raised(e))
          case Ok(fs) => Ingestion(ts + fs, Completed)
  }

  // ---------------------------------------------------------------------------
  // The chooser

  /**
   * The destinations offered: exactly the bags `user` may write to whose names
   * do not start with the staging marker, each once, sorted by name.
   */
  ghost predicate IsDestinationList(names: seq<string>, bags: map<string, Policy>, user: string)
  {
    && Sorted(names)
    && Distinct(names)
    && forall n :: n in names <==> n in bags && Allows(bags[n], user, Write) && !StartsWith(n, StagingMarker)
  }

  /** The chooser page for staging bag `tmp`: its titles sorted, and the destination list. */
  ghost predicate IsChooserView(view: ChooserView, bags: map<string, Policy>, m: TiddlerMap, user: string, tmp: string, fixed: Option<string>)
  {
    && view.tmpBag == tmp
    && view.fixedBag == fixed
    && Sorted(view.titles)
    && Distinct(view.titles)
    && (forall t :: t in view.titles <==> (tmp, t) in m)
    && IsDestinationList(view.bags, bags, user)
  }

  /** `_get_bags`: the bags the user may write to, without staging bags, sorted by name. */
  method GetBags(store: Store, user: string) returns (names: seq<string>)
    ensures IsDestinationList(names, store.bags, user)
  {
    var all := store.ListBags();
    var kept: seq<string> := [];
    for i := 0 to |all|
      invariant Distinct(kept)
      invariant forall n :: n in kept <==>
        n in all[..i] && n in store.bags && Allows(store.bags[n], user, Write) && !StartsWith(n, StagingMarker)
    {
      assert all[..i + 1] == all[..i] + [all[i]];
      var bag := store.GetBag(all[i]);
      if bag.Some? && Allows(bag.value, user, Write) && !StartsWith(all[i], StagingMarker) {
        assert all[i] !in all[..i];
        kept := kept + [all[i]];
      }
    }
    assert all[..|all|] == all;
    names := Sort(kept);
    PermutationKeepsDistinct(kept, names);
    assert forall n :: n in names <==> n in multiset(names);
    assert forall n :: n in kept <==> n in multiset(kept);
  }

  /** `_show_chooser`: the staged titles sorted ascending, with the destination list. */
  method ShowChooser(store: Store, user: string, tmp: string, fixed: Option<string>) returns (view: ChooserView)
    requires store.Valid() && tmp in store.bags
    ensures IsChooserView(view, store.bags, store.tiddlers, user, tmp, fixed)
  {
    var listed := store.ListBagTiddlers(tmp);
    var titles := TitlesOf(listed.value);
    var sorted := Sort(titles);
    PermutationKeepsDistinct(titles, sorted);
    assert forall t :: t in sorted <==> t in multiset(sorted);
    assert forall t :: t in titles <==> t in multiset(titles);
    var bags := GetBags(store, user);
    view := ChooserView(sorted, tmp, fixed, bags);
  }

  // ---------------------------------------------------------------------------
  // Committing the choices

  /**
   * The tiddler map after each of `titles` has been read from bag `from` and
   * put, under the same title, into bag `to`.
   */
  function Moved(m: TiddlerMap, from: string, to: string, titles: set<string>): TiddlerMap
    requires forall x :: x in titles ==> (from, x) in m
  {
    map k | k in m.Keys + (set x | x in titles :: (to, x)) :: if k.0 == to && k.1 in titles then m[(from, k.1)] else m[k]
  }

  /** Moving one more title is one more put. */
  lemma MovedStep(m: TiddlerMap, from: string, to: string, s: set<string>, x: string)
    requires forall y :: y in s ==> (from, y) in m
    requires (from, x) in m
    ensures Moved(m, from, to, s)[(to, x) := m[(from, x)]] == Moved(m, from, to, s + {x})
  {
  }

  /** Copying never changes what the source bag holds (even when it is the target). */
  lemma MovedKeepsSource(m: TiddlerMap, from: string, to: string, s: set<string>, x: string)
    requires forall y :: y in s ==> (from, y) in m
    ensures (from, x) in Moved(m, from, to, s) <==> (from, x) in m
    ensures (from, x) in m ==> Moved(m, from, to, s)[(from, x)] == m[(from, x)]
  {
  }

  lemma ElemsSnoc(s: seq<string>, i: nat)
    requires i < |s|
    ensures Elems(s[..i + 1]) == Elems(s[..i]) + {s[i]}
  {
    assert s[..i + 1] == s[..i] + [s[i]];
  }

  /** The index of the first selected title missing from `bag`, or the number of titles. */
  function FirstMissing(m: TiddlerMap, bag: string, titles: seq<string>): (k: nat)
    ensures k <= |titles|
    ensures forall j :: 0 <= j < k ==> (bag, titles[j]) in m
    ensures k < |titles| ==> (bag, titles[k]) !in m
  {
    if titles == [] then 0
    else if (bag, titles[0]) !in m then 0
    else 1 + FirstMissing(m, bag, titles[1..])
  }

  /** How the target of a commit is resolved, before its policy is checked. */
  datatype Resolution = NotFound | NoNewName | Resolved(name: string, policy: Policy, bags: map<string, Policy>)

  /**
   * A non-empty `target_bag` must already exist (skinny get); otherwise the bag
   * named by `new_bag` (or a generated name) is created with the restricted policy.
   */
  function Resolve(bags: map<string, Policy>, user: string, form: Form, uuid: string): Resolution
    requires form.targetBag.Some?
  {
    var target := form.targetBag.value;
    if target != "" then
      if target in bags then Resolved(target, bags[target], bags) else NotFound
    else if form.newBag.None? then NoNewName
    else
      var name := BagName(form.newBag, uuid);
      Resolved(name, Restricted(user, DefaultPolicy), bags[name := Restricted(user, DefaultPolicy)])
  }

  /** The response of a commit and the store it leaves behind. */
  datatype Commit = Commit(resp: Response, bags: map<string, Policy>, tiddlers: TiddlerMap)

  /** `_process_choices`, on the store's state. */
  function Committed(bags: map<string, Policy>, m: TiddlerMap, user: string, form: Form, queryBag: Option<string>,
                     uuid: string, bagUrl: string -> string): Commit
    requires form.targetBag.Some?
  {
    if form.tmpBag.None? then Commit(ServerError, bags, m)
    else
      var tmp := form.tmpBag.value;
      match Resolve(bags, user, form, uuid)
      case NotFound => Commit(FormPage(queryBag, MsgNoSuchBag), bags, m)
      case NoNewName => Commit(ServerError, bags, m)
      case Resolved(name, policy, bags1) =>
        if !Allows(policy, user, Write) then Commit(FormPage(queryBag, MsgMayNotWrite), bags1, m)
        else if |form.tiddler| > 0 then
          var k := FirstMissing(m, tmp, form.tiddler);
          var moved := Moved(m, tmp, name, Elems(form.tiddler[..k]));
          if k < |form.tiddler| then Commit(ServerError, bags1, moved)
          else Commit(Redirect(bagUrl(name) + "/tiddlers"), bags1 - {tmp}, Dropped(moved, tmp))
        else if tmp !in bags1 then Commit(ServerError, bags1, m)
        else Commit(Redirect(bagUrl(name) + "/tiddlers"), bags1 - {tmp}, Dropped(Moved(m, tmp, name, Titles(m, tmp)), tmp))
  }

  /**
   * The selection loop of `_process_choices`: copies each selected title from `tmp` into `to`, in order;
   * a title that is not staged raises, after the ones before it were copied.
   */
  method CopySelected(store: Store, tmp: string, to: string, titles: seq<string>) returns (ok: bool)
    requires store.Valid() && to in store.bags
    modifies store
    ensures store.Valid() && store.bags == old(store.bags)
    ensures ok == (FirstMissing(old(store.tiddlers), tmp, titles) == |titles|)
    ensures store.tiddlers
         == Moved(old(store.tiddlers), tmp, to, Elems(titles[..FirstMissing(old(store.tiddlers), tmp, titles)]))
  {
    ghost var m := store.tiddlers;
    var i := 0;
    while i < |titles|
      invariant 0 <= i <= |titles|
      invariant store.Valid() && store.bags == old(store.bags)
      invariant forall j :: 0 <= j < i ==> (tmp, titles[j]) in m
      invariant store.tiddlers == Moved(m, tmp, to, Elems(titles[..i]))
    {
      MovedKeepsSource(m, tmp, to, Elems(titles[..i]), titles[i]);
      var got := store.GetTiddler(tmp, titles[i]);
      if got.None? {
        assert FirstMissing(m, tmp, titles) == i;
        return false;
      }
      MovedStep(m, tmp, to, Elems(titles[..i]), titles[i]);
      ElemsSnoc(titles, i);
      store.PutTiddler(got.value.(bag := to));
      i := i + 1;
    }
    assert FirstMissing(m, tmp, titles) == |titles|;
    ok := true;
  }

  /**
   * The no-selection loop of `_process_choices`: copies every tiddler of `tmp` into `to`; listing a bag that
   * does not exist raises before anything is copied.
   */
  method CopyAll(store: Store, tmp: string, to: string) returns (ok: bool)
    requires store.Valid() && to in store.bags
    modifies store
    ensures store.Valid() && store.bags == old(store.bags)
    ensures ok == (tmp in old(store.bags))
    ensures ok ==> store.tiddlers == Moved(old(store.tiddlers), tmp, to, Titles(old(store.tiddlers), tmp))
    ensures !ok ==> store.tiddlers == old(store.tiddlers)
  {
    ghost var m := store.tiddlers;
    var listed := store.ListBagTiddlers(tmp);
    if listed.None? {
      return false;
    }
    var ts := listed.value;
    for i := 0 to |ts|
      invariant store.Valid() && store.bags == old(store.bags)
      invariant store.tiddlers == Moved(m, tmp, to, Elems(TitlesOf(ts)[..i]))
    {
      assert ts[i].title in TitlesOf(ts);
      MovedStep(m, tmp, to, Elems(TitlesOf(ts)[..i]), ts[i].title);
      ElemsSnoc(TitlesOf(ts), i);
      store.PutTiddler(ts[i].(bag := to));
    }
    assert Elems(TitlesOf(ts)[..|ts|]) == Titles(m, tmp) by {
      assert TitlesOf(ts)[..|ts|] == TitlesOf(ts);
    }
    ok := true;
  }

  /**
   * `_process_choices`: resolves the target, checks write permission, copies the
   * selected (or all) staged tiddlers into the target and deletes the staging bag.
   */
  method ProcessChoices(store: Store, user: string, form: Form, queryBag: Option<string>,
                        uuid: string, bagUrl: string -> string) returns (resp: Response)
    requires store.Valid() && StagingName(uuid) !in store.bags
    requires form.targetBag.Some?
    modifies store
    ensures store.Valid()
    ensures Commit(resp, store.bags, store.tiddlers)
         == Committed(old(store.bags), old(store.tiddlers), user, form, queryBag, uuid, bagUrl)
  {
    if form.tmpBag.None? {
      return ServerError;
    }
    var tmp := form.tmpBag.value;
    var target := form.targetBag.value;
    var name: string;
    var policy: Policy;
    if target != "" {
      var got := store.GetBag(target);
      if got.None? {
        return FormPage(queryBag, MsgNoSuchBag);
      }
      name, policy := target, got.value;
    } else {
      if form.newBag.None? {
        return ServerError;
      }
      name, policy := MakeBag(store, user, form.newBag, uuid);
    }
    assert Resolve(old(store.bags), user, form, uuid) == Resolved(name, policy, store.bags);
    if !Allows(policy, user, Write) {
      return FormPage(queryBag, MsgMayNotWrite);
    }
    var ok: bool;
    if |form.tiddler| > 0 {
      ok := CopySelected(store, tmp, name, form.tiddler);
      if ok {
        assert (tmp, form.tiddler[0]) in store.tiddlers;
      }
    } else {
      ok := CopyAll(store, tmp, name);
    }
    if !ok {
      return ServerError;
    }
    store.DeleteBag(tmp);
    resp := Redirect(bagUrl(name) + "/tiddlers");
  }

  // ---------------------------------------------------------------------------
  // What a commit promises

  /** A commit that answers with the upload form has changed nothing in the store. */
  lemma FailedCommitChangesNothing(bags: map<string, Policy>, m: TiddlerMap, user: string, form: Form,
                                   queryBag: Option<string>, uuid: string, bagUrl: string -> string)
    requires form.targetBag.Some?
    ensures var c := Committed(bags, m, user, form, queryBag, uuid, bagUrl);
      c.resp.FormPage? ==> c.bags == bags && c.tiddlers == m
  {
    if form.tmpBag.Some? && form.targetBag.value == "" && form.newBag.Some? {
      CreatorMayWrite(user);
    }
  }

  /** Naming an existing bag that is not in the store answers "chosen bag does not exist". */
  lemma CommitMissingTarget(bags: map<string, Policy>, m: TiddlerMap, user: string, form: Form,
                            queryBag: Option<string>, uuid: string, bagUrl: string -> string)
    requires form.tmpBag.Some? && form.targetBag.Some?
    requires form.targetBag.value != "" && form.targetBag.value !in bags
    ensures Committed(bags, m, user, form, queryBag, uuid, bagUrl) == Commit(FormPage(queryBag, MsgNoSuchBag), bags, m)
  {
  }

  /** A target whose policy denies write answers "you may not write to that bag". */
  lemma CommitWriteDenied(bags: map<string, Policy>, m: TiddlerMap, user: string, form: Form,
                          queryBag: Option<string>, uuid: string, bagUrl: string -> string)
    requires form.tmpBag.Some? && form.targetBag.Some?
    requires Resolve(bags, user, form, uuid).Resolved?
    requires !Allows(Resolve(bags, user, form, uuid).policy, user, Write)
    ensures Committed(bags, m, user, form, queryBag, uuid, bagUrl) == Commit(FormPage(queryBag, MsgMayNotWrite), bags, m)
  {
    if form.targetBag.value == "" {
      CreatorMayWrite(user);
    }
  }

  /**
   * A bag created as the target (`new_bag`) always passes the write check and
   * gets the restricted policy, even when a bag of that name existed.
   */
  lemma CreatedTargetIsWritable(bags: map<string, Policy>, m: TiddlerMap, user: string, form: Form,
                                queryBag: Option<string>, uuid: string, bagUrl: string -> string)
    requires form.tmpBag.Some? && form.targetBag == Some("") && form.newBag.Some?
    ensures var c := Committed(bags, m, user, form, queryBag, uuid, bagUrl);
      var name := BagName(form.newBag, uuid);
      && !c.resp.FormPage?
      && (name != form.tmpBag.value ==> name in c.bags && c.bags[name] == Restricted(user, DefaultPolicy))
  {
    CreatorMayWrite(user);
  }

  /**
   * A guest naming an existing bag as `new_bag` has its policy replaced by the
   * open default one, and no permission on that bag is checked: afterwards
   * anyone may do anything with it.
   */
  lemma GuestNewBagOpensBag(bags: map<string, Policy>, m: TiddlerMap, form: Form,
                            queryBag: Option<string>, uuid: string, bagUrl: string -> string)
    requires form.tmpBag.Some? && form.targetBag == Some("") && form.newBag.Some?
    requires form.newBag.value != "" && form.newBag.value != form.tmpBag.value
    ensures var c := Committed(bags, m, Guest, form, queryBag, uuid, bagUrl);
      var name := form.newBag.value;
      && !c.resp.FormPage?
      && name in c.bags && c.bags[name] == DefaultPolicy
      && forall u: string, a: Action :: Allows(c.bags[name], u, a)
  {
    CreatedTargetIsWritable(bags, m, Guest, form, queryBag, uuid, bagUrl);
    GuestUnrestricted(DefaultPolicy);
  }

  /**
   * Committing a selection whose titles are all staged: each selected tiddler
   * is in the target under its title, the target's other tiddlers and all other
   * bags are unchanged, and the staging bag is gone with every tiddler in it.
   */
  lemma SelectiveCommit(bags: map<string, Policy>, m: TiddlerMap, user: string, form: Form,
                        queryBag: Option<string>, uuid: string, bagUrl: string -> string)
    requires form.tmpBag.Some? && form.targetBag.Some?
    requires Resolve(bags, user, form, uuid).Resolved?
    requires Allows(Resolve(bags, user, form, uuid).policy, user, Write)
    requires |form.tiddler| > 0
    requires forall x :: x in form.tiddler ==> (form.tmpBag.value, x) in m
    ensures var c := Committed(bags, m, user, form, queryBag, uuid, bagUrl);
      var tmp, to := form.tmpBag.value, Resolve(bags, user, form, uuid).name;
      && c.resp == Redirect(bagUrl(to) + "/tiddlers")
      && c.bags == Resolve(bags, user, form, uuid).bags - {tmp}
      && tmp !in c.bags
      && (forall x :: (tmp, x) !in c.tiddlers)
      && (to != tmp ==> forall x :: x in form.tiddler ==> (to, x) in c.tiddlers && c.tiddlers[(to, x)] == m[(tmp, x)])
      && (forall x :: x !in form.tiddler ==> ((to, x) in c.tiddlers <==> (to, x) in m && to != tmp))
      && (forall x :: x !in form.tiddler && (to, x) in c.tiddlers ==> c.tiddlers[(to, x)] == m[(to, x)])
      && (forall k: (string, string) :: k.0 != tmp && k.0 != to ==> (k in c.tiddlers <==> k in m))
      && (forall k: (string, string) :: k.0 != tmp && k.0 != to && k in m ==> c.tiddlers[k] == m[k])
  {
    var titles := form.tiddler;
    var k := FirstMissing(m, form.tmpBag.value, titles);
    assert k == |titles|;
    assert titles[..k] == titles;
    assert Elems(titles[..k]) == Elems(titles);
  }

  /**
   * Committing with no selection: every staged tiddler is in the target under
   * its title, the target's other tiddlers and all other bags are unchanged,
   * and the staging bag is gone.
   */
  lemma FullCommit(bags: map<string, Policy>, m: TiddlerMap, user: string, form: Form,
                   queryBag: Option<string>, uuid: string, bagUrl: string -> string)
    requires form.tmpBag.Some? && form.targetBag.Some?
    requires form.tmpBag.value in bags
    requires Resolve(bags, user, form, uuid).Resolved?
    requires Allows(Resolve(bags, user, form, uuid).policy, user, Write)
    requires form.tiddler == []
    ensures var c := Committed(bags, m, user, form, queryBag, uuid, bagUrl);
      var tmp, to := form.tmpBag.value, Resolve(bags, user, form, uuid).name;
      && c.resp == Redirect(bagUrl(to) + "/tiddlers")
      && c.bags == Resolve(bags, user, form, uuid).bags - {tmp}
      && tmp !in c.bags
      && (forall x :: (tmp, x) !in c.tiddlers)
      && (to != tmp ==> forall x :: (tmp, x) in m ==> (to, x) in c.tiddlers && c.tiddlers[(to, x)] == m[(tmp, x)])
      && (forall x :: (tmp, x) !in m ==> ((to, x) in c.tiddlers <==> (to, x) in m && to != tmp))
      && (forall x :: (tmp, x) !in m && (to, x) in c.tiddlers ==> c.tiddlers[(to, x)] == m[(to, x)])
      && (forall k: (string, string) :: k.0 != tmp && k.0 != to ==> (k in c.tiddlers <==> k in m))
      && (forall k: (string, string) :: k.0 != tmp && k.0 != to && k in m ==> c.tiddlers[k] == m[k])
  {
    var r := Resolve(bags, user, form, uuid);
    assert form.tmpBag.value in r.bags;
  }

  /**
   * A selected title that is not staged stops the commit with an uncaught
   * error: the titles before it have been copied, and the staging bag and its
   * tiddlers are all still there.
   */
  lemma CommitStopsAtMissingTitle(bags: map<string, Policy>, m: TiddlerMap, user: string, form: Form,
                                  queryBag: Option<string>, uuid: string, bagUrl: string -> string, i: nat)
    requires form.tmpBag.Some? && form.targetBag.Some?
    requires Resolve(bags, user, form, uuid).Resolved?
    requires Allows(Resolve(bags, user, form, uuid).policy, user, Write)
    requires i < |form.tiddler| && (form.tmpBag.value, form.tiddler[i]) !in m
    requires forall j :: 0 <= j < i ==> (form.tmpBag.value, form.tiddler[j]) in m
    ensures var c := Committed(bags, m, user, form, queryBag, uuid, bagUrl);
      var tmp, to := form.tmpBag.value, Resolve(bags, user, form, uuid).name;
      && c.resp == ServerError
      && c.bags == Resolve(bags, user, form, uuid).bags
      && (forall x :: (tmp, x) in m ==> (tmp, x) in c.tiddlers && c.tiddlers[(tmp, x)] == m[(tmp, x)])
      && (forall j :: 0 <= j < i ==>
            (to, form.tiddler[j]) in c.tiddlers && c.tiddlers[(to, form.tiddler[j])] == m[(tmp, form.tiddler[j])])
  {
    var titles := form.tiddler;
    var k := FirstMissing(m, form.tmpBag.value, titles);
    assert k == i;
    forall j | 0 <= j < i ensures titles[j] in Elems(titles[..k]) {
      assert titles[..k][j] == titles[j];
    }
  }

  // ---------------------------------------------------------------------------
  // The request handler

  /**
   * `wimport`: a `url` or `file` field starts an import into a new staging bag
   * and shows the chooser; otherwise a `target_bag` field commits the choices;
   * otherwise the upload form is shown with "missing field info".
   */
  method Wimport(store: Store, user: string, form: Form, queryBag: Option<string>, uuid: string,
                 importOne: StructuredImport, fetch: Fetcher, parse: Parser, bagUrl: string -> string)
    returns (resp: Response)
    requires store.Valid() && StagingName(uuid) !in store.bags
    modifies store
    ensures store.Valid()
    ensures (form.url.Some? || form.file.Some?) ==>
      var tmp := StagingName(uuid);
      var ing := Submitted(form.url, form.file, importOne, fetch, parse);
      && store.bags == old(store.bags)[tmp := Restricted(user, DefaultPolicy)]
      && store.tiddlers == Ingested(old(store.tiddlers), tmp, ing.stored)
      && (ing.stop == MissingKey ==> resp == ServerError)
      && (ing.stop.Raised? ==> resp == ImportFailure(queryBag, ing.stop.error))
      && (ing.stop == Completed ==> resp.ChooserPage? && IsChooserView(resp.view, store.bags, store.tiddlers, user, tmp, queryBag))
    ensures form.url.None? && form.file.None? && form.targetBag.Some? ==>
      Commit(resp, store.bags, store.tiddlers) == Committed(old(store.bags), old(store.tiddlers), user, form, queryBag, uuid, bagUrl)
    ensures form.url.None? && form.file.None? && form.targetBag.None? ==>
      resp == FormPage(queryBag, MsgMissingField) && store.bags == old(store.bags) && store.tiddlers == old(store.tiddlers)
  {
    if form.url.Some? || form.file.Some? {
      var tmp, _ := MakeBag(store, user, None, uuid);
      if form.url.None? {
        return ServerError;
      }
      var fromUrl: seq<Tiddler> := [];
      if form.url.value != "" {
        var err := ProcessUrl(store, form.url.value, importOne, fetch, parse, tmp);
        if err.Some? {
          return ImportFailure(queryBag, err.value);
        }
        fromUrl := UrlTiddlers(form.url.value, importOne, fetch, parse).value;
      }
      if form.file.None? {
        return ServerError;
      }
      if form.file.value.filename != "" {
        var err := ProcessFile(store, form.file.value.content, parse, tmp);
        if err.Some? {
          return ImportFailure(queryBag, err.value);
        }
        IngestedAppend(old(store.tiddlers), tmp, fromUrl, parse(form.file.value.content).value);
      }
      var view := ShowChooser(store, user, tmp, queryBag);
      resp := ChooserPage(view);
    } else if form.targetBag.Some? {
      resp := ProcessChoices(store, user, form, queryBag, uuid, bagUrl);
    } else {
      resp := FormPage(queryBag, MsgMissingField);
    }
  }
}
