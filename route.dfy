/** The route handler around the loader: the system prompt built once from
    the loaded documentation, and the guard on a request's `query`. */
module Route {
  import opened Text
  import opened DocsTree
  import opened LoadDocs
  import opened DocsCollect

  /** The text between the base prompt and the documentation. */
  const DocsStart: string := "\n\n--- NEXT.JS DOCUMENTATION START ---\n"

  /** The text after the documentation. */
  const DocsEnd: string := "\n--- NEXT.JS DOCUMENTATION END ---"

  /** The system prompt: the base prompt, then the documentation between a
      start and an end marker. */
  function SystemPrompt(base: string, docs: string): (r: string)
    ensures |r| == |base| + |DocsStart| + |docs| + |DocsEnd|
    ensures r[..|base|] == base
    ensures r[|base|..|base| + |DocsStart|] == DocsStart
    ensures r[|base| + |DocsStart|..|r| - |DocsEnd|] == docs
    ensures r[|r| - |DocsEnd|..] == DocsEnd
  {
    base + DocsStart + docs + DocsEnd
  }

  /** Two system prompts with the same base prompt agree exactly when the
      documentation they embed does. */
  lemma SystemPromptInjective(base: string, d1: string, d2: string)
    ensures SystemPrompt(base, d1) == SystemPrompt(base, d2) <==> d1 == d2
  {
  }

  /** The prompt made at start-up from the documentation root. */
  function StartupPrompt(base: string, root: Node): string
  {
    SystemPrompt(base, AllDocs(root, ""))
  }

  /** Every document the walk reaches is quoted in the start-up prompt, under
      a header that names its relative path. */
  lemma DocumentInPrompt(base: string, root: Node, path: seq<string>, content: string) returns (at: nat)
    requires Reached(root, path, content)
    ensures at + |Block(RelOf("", path), content)| <= |StartupPrompt(base, root)|
    ensures StartupPrompt(base, root)[at..at + |Block(RelOf("", path), content)|] == Block(RelOf("", path), content)
  {
    CollectIffReached(root, path, content);
    AllDocsIsRender(root, "");
    var docs := Collect(root);
    var k :| 0 <= k < |docs| && docs[k] == Doc(path, content);
    var inner := BlockInRender(docs, "", k);
    var b := DocBlock("", docs[k]);
    var docsText := AllDocs(root, "");
    at := |base + DocsStart| + inner;
    SliceInMiddle(base + DocsStart, docsText, DocsEnd, inner, |b|);
    assert StartupPrompt(base, root) == base + DocsStart + docsText + DocsEnd;
  }

  /** A value that the request body's `query` property can hold: a JSON value,
      or `undefined` when the body has no such property. */
  datatype Json =
    | Undefined
    | Null
    | Bool(b: bool)
    | Number(x: real)
    | Str(s: string)
    | Arr(items: seq<Json>)
    | Obj(members: seq<(string, Json)>)

  /** JavaScript truthiness of such a value. */
  predicate Truthy(v: Json)
  {
    match v
    case Undefined => false
    case Null => false
    case Bool(b) => b
    case Number(x) => x != 0.0
    case Str(s) => s != ""
    case Arr(_) => true
    case Obj(_) => true
  }

  /** The body of the refusal: `JSON.stringify({ error: "query is required" })`. */
  const QueryRequired: string := "{\"error\":\"query is required\"}"

  datatype Response = Response(status: nat, contentType: string, body: string)

  /** The single model request the handler makes once the query is accepted. */
  datatype ModelRequest = ModelRequest(model: string, system: string, prompt: string, onlyProviders: seq<string>)

  datatype Outcome =
    | Respond(response: Response)
    | AskModel(request: ModelRequest)

  /** `POST`: refuse a query that is falsy or not a string with 400, and
      otherwise send it as the prompt, under the system prompt. */
  function Post(query: Json, system: string): (o: Outcome)
    ensures o.Respond? <==> !(query.Str? && query.s != "")
    ensures o.Respond? ==> o.response == Response(400, "application/json", QueryRequired)
    ensures o.AskModel? ==> o.request.prompt == query.s && o.request.system == system
  {
    if !Truthy(query) || !query.Str? then
      Respond(Response(400, "application/json", QueryRequired))
    else
      AskModel(ModelRequest("google/gemini-3-flash", system, query.s, ["google"]))
  }

  /** The handler passes the start-up prompt as the system text, so an
      accepted query reaches the model together with every document the walk
      reaches, each quoted verbatim under its header. */
  lemma AcceptedQueryCarriesDocument(base: string, root: Node, query: Json, path: seq<string>, content: string)
    returns (at: nat)
    requires query.Str? && query.s != ""
    requires Reached(root, path, content)
    ensures Post(query, StartupPrompt(base, root)).AskModel?
    ensures Post(query, StartupPrompt(base, root)).request.system == StartupPrompt(base, root)
    ensures Post(query, StartupPrompt(base, root)).request.prompt == query.s
    ensures at + |Block(RelOf("", path), content)| <= |StartupPrompt(base, root)|
    ensures StartupPrompt(base, root)[at..at + |Block(RelOf("", path), content)|] == Block(RelOf("", path), content)
  {
    at := DocumentInPrompt(base, root, path, content);
  }
}
