# Documentation loader of the agentic RAG route, in Dafny

The route `app/api/rag/route.ts` answers a query by asking a language model,
with the whole Next.js documentation pasted into its system prompt. At start-up
`loadAllDocs` walks the `.next-docs` tree depth first, lists each directory in
sorted order, keeps the files named `*.mdx` or `*.md`, and joins them into one
string, each behind a `--- FILE: <relative path> ---` header. Parts it cannot
read are skipped. The system prompt is a fixed base prompt followed by that
string between two markers. `POST` refuses with 400 a request whose `query` is
not a non-empty string. Otherwise it sends the query to the model under that
system prompt.

The model:

- `text.dfy` (`Text`): `join("")`, `endsWith`, and the character-by-character
  order of the default `sort`, with the facts about that order the proofs
  need.
- `docs_tree.dfy` (`DocsTree`): the filesystem as a tree value. A `Node` is a
  directory (entries, and whether it can be listed) or a file (content, and
  whether it can be read). Each `Entry` has a name, a flag saying whether its
  status read fails, and the node it names. `SortByName` is the sorted
  listing.
- `load_docs.dfy` (`LoadDocs`): `AllDocs` is the loader as a recursive
  function, and `LoadAllDocs` is the loader as the source writes it: a loop
  over the sorted entries that pushes parts, recurses, stops at a failed
  status read, and joins at the end. The body of one loop turn is the
  method `LoadEntry`. Both are proved equal to their functions.
- `docs_collect.dfy` (`DocsCollect`): the documents the walk emits, as a
  sequence of (path, content) pairs. The module proves:
  - the loader's string is their rendering;
  - a document is emitted exactly when the walk reaches it;
  - documents come out in path order;
  - how relative paths are formed.
- `route.dfy` (`Route`): the system prompt, the guard on `query`, and what
  `POST` does with each kind of query value.

The page text (`app/page.tsx:172-194` and `232-234`) describes three
sandboxed, read-only tools (`grep`, `list_files`, `read_file`) and a maximum
of 15 steps. No code in `app/api/rag/route.ts` implements them: the route
makes one `generateText` call with every document loaded in advance. This
model follows the route's code.

## Model

| member | source | states |
|---|---|---|
| `DocsTree.SortByName` | app/api/rag/route.ts:29 | the sorted listing holds exactly the directory's entries, each as often as the filesystem listed it (a permutation) |
| `DocsTree.SortByNameSorted` | app/api/rag/route.ts:29 | the sorted listing is in non-decreasing name order |
| `DocsTree.ListingOrderIrrelevant` | app/api/rag/route.ts:29 | for entries without duplicate names, any two listings of the same entries sort to the same sequence |
| `LoadDocs.AllDocs` | app/api/rag/route.ts:25-51 | the loader as a recursive function; what it returns is stated by `DocsCollect.AllDocsIsRender`, `DocsCollect.CollectIffReached`, `DocsCollect.CollectSorted` and `LoadDocs.AllDocsUpToStatFailure` |
| `LoadDocs.RelPath` | app/api/rag/route.ts:32 | the relative path of an entry; `DocsCollect.RelOfNamed` and `DocsCollect.RelOfRoot` state the paths it builds over a whole walk (no leading slash at the root, `"/"` between levels) |
| `LoadDocs.IsDocName` | app/api/rag/route.ts:37 | the name test for documents; `LoadDocs.LoadEntry` and `DocsCollect.CollectIffReached` state that only files whose names end in `.mdx` or `.md` contribute |
| `LoadDocs.Block` | app/api/rag/route.ts:40 | the text one document contributes; `DocsCollect.AllDocsIsRender` and `DocsCollect.BlockInRender` state that it appears verbatim, in order, in the loader's string |
| `LoadDocs.LoadAllDocs` | app/api/rag/route.ts:25-51 | the loop that pushes and joins parts returns exactly `AllDocs` of the directory and prefix it is given |
| `LoadDocs.LoadEntry` | app/api/rag/route.ts:32-44 | one loop turn returns exactly what the entry contributes, and pushes a part exactly when the entry is a subdirectory (its whole walk, pushed even when empty) or a readable `.mdx`/`.md` file (its block) |
| `LoadDocs.FirstStatFailure` | app/api/rag/route.ts:30-33 | the position where a directory's walk stops: no entry before it fails its status read, and the entry at it does (or it is the end of the listing) |
| `LoadDocs.AllDocsUpToStatFailure` | app/api/rag/route.ts:29-50 | a listable directory yields the concatenation, in sorted order, of what each entry before the first failed status read contributes; blocks already collected are kept and nothing after the failure is emitted |
| `LoadDocs.AllDocsIgnoresListingOrder` | app/api/rag/route.ts:29-36 | for a directory without duplicate names, the result does not depend on the order the filesystem lists that directory's entries in |
| `DocsCollect.AllDocsIsRender` | app/api/rag/route.ts:30-50 | the loader's string is the plain concatenation, in emission order, of `"\n--- FILE: " + rel + " ---\n" + content + "\n"` for every emitted document |
| `DocsCollect.CollectIffReached` | app/api/rag/route.ts:29-48 | a document is emitted exactly when every directory on its path can be listed, the entry at each level and every entry sorted before it has a readable status, the last entry is a readable file (not a directory) with a `.mdx` or `.md` name, and the content is that file's content |
| `DocsCollect.CollectSorted` | app/api/rag/route.ts:29-36 | in a tree without duplicate names, documents come out in strictly increasing path order, compared name by name: depth first, each directory by name, a subdirectory's documents all at the subdirectory's sorted position |
| `DocsCollect.RelOfNamed` | app/api/rag/route.ts:32-36 | below a non-empty prefix, the relative path is the prefix followed by `"/" + name` for each level |
| `DocsCollect.RelOfRoot` | app/api/rag/route.ts:32-36 | from the root (empty prefix), the relative path is the first name followed by `"/" + name` for each deeper level, with no leading slash |
| `DocsCollect.BlockInRender` | app/api/rag/route.ts:39-50 | each emitted document's block occurs verbatim, at a position the lemma returns, in the loader's string |
| `Route.SystemPrompt` | app/api/rag/route.ts:55 | the prompt is the base prompt, then `"\n\n--- NEXT.JS DOCUMENTATION START ---\n"`, then the documentation, then `"\n--- NEXT.JS DOCUMENTATION END ---"`, at those exact positions |
| `Route.SystemPromptInjective` | app/api/rag/route.ts:55 | for a fixed base prompt, two system prompts are equal exactly when their documentation strings are |
| `Route.DocumentInPrompt` | app/api/rag/route.ts:54-55 | every document the walk from the root reaches is quoted in the start-up system prompt under a header with its relative path |
| `Route.StartupPrompt` | app/api/rag/route.ts:54-55 | the prompt built once at start-up from the root with an empty prefix; `Route.SystemPrompt` states its layout and `Route.DocumentInPrompt` that it quotes every reached document |
| `Route.Truthy` | app/api/rag/route.ts:67 | JavaScript truthiness of the `query` value; `Route.Post` states that the guard (`!query` or `typeof query !== "string"`) rejects exactly the values that are not non-empty strings |
| `Route.AcceptedQueryCarriesDocument` | app/api/rag/route.ts:79-82 | with the start-up prompt passed as the system text, an accepted query is sent as the prompt with that exact system text, and every document the walk reaches is quoted in it verbatim under its header |
| `Route.Post` | app/api/rag/route.ts:67-88 | the request is answered with status 400, type `application/json` and body `{"error":"query is required"}` exactly when `query` is not a non-empty string; otherwise the query is the model's prompt and the system prompt is its system text |

## Left out

- `LoadDocs.AllDocsIgnoresListingOrder`: covers the listing order of one directory, with its subdirectories unchanged. Trees that differ in listing order at every level are not related by a lemma, because that needs entries matched by name at each level and a version of `SortedUnique` up to that matching.
- Filesystem calls. `readdirSync`, `statSync` and `readFileSync` are replaced by the tree and its per-node failure flags. A missing documentation root behaves like a directory that cannot be listed: both give the empty string.
- `process.cwd()` and `join(dirPath, entry)`. These only build the absolute paths passed to the filesystem calls. The model walks the tree directly.
- Symbolic links. A link is modelled as the node it points to, because `statSync` follows links. A cycle of links does not make the walk endless. The paths passed to `statSync` and `readdirSync` grow with each turn of the cycle, and the kernel bounds both: it follows a limited number of links per lookup (ELOOP) and limits a path's length (ENAMETOOLONG). At that depth the looping entry's status read throws, and the walk ends as for a finite tree: the cycle unfolded to that depth, with `statFails` set on the looping entry at the bottom. A tree of that shape can be expressed, but the model does not derive the depth from the kernel's limits.
- Other file kinds. Every non-directory is modelled as a file that is read or fails to read.
- `DocsTree.SortByName` compares names by Unicode code point. The default `sort` compares UTF-16 code units, so the two orders differ only between characters above U+FFFF and characters in U+E000–U+FFFF.
- UTF-8 decoding of file contents. A file's `content` is the already-decoded text.
- Running out of call stack on a very deep tree.
- The engine's maximum string length. If a subdirectory's `parts.join("")` (route.ts:50) gets longer than that, the RangeError is thrown outside that call's `try`. The parent's `try` (route.ts:28-46) catches it and drops the parent's remaining entries. `LoadDocs.EntryDocs` has no length limit, so it always contributes the whole string.
- The wording of `BASE_PROMPT` (lines 7-23). It is the `base` parameter of `Route.SystemPrompt`.
- The `console.log` calls, including the size and token estimate with its floating-point formatting (lines 57-59, 65, 68).
- Request parsing with `req.json()` and the destructuring of `query` from the body. `Route.Post` takes the value of `query` directly: `Undefined` stands for a missing property. A body of JSON `null`, which makes the destructuring throw, is not modelled.
- The model call (`createGateway`, `generateText`, lines 75-88) and the response built from the model's text (line 90). These are network calls to an external provider. `Route.Post` ends with the request it would send.
- `app/page.tsx`. It is the browser UI: state hooks, `fetch`, the streaming read loop and static markup.
- The tools the UI text describes (`grep`, `list_files`, `read_file`), a path sandbox and a multi-step tool loop. No code implements them in these sources.
