# scrapnote in Dafny

scrapnote is a note-taking tool. Its server serves bundled static assets and a small note API over a directory of plain files:

- `GET /api/files?key=…` lists the notes whose names contain a key.
- `GET /api/file/<name>` reads a note, creating it empty when the read fails.
- `POST /api/file/<name>` overwrites a note.

Its client is a web component tree with three parts:

- a selector pane: a text input with a highlighted list, Ctrl+P / Ctrl+N to move, Enter to pick;
- an editor pane: it loads the picked note, and Escape saves it and hands focus back;
- a root component that decides which pane has focus and which note the editor holds.

This project models that core and proves properties of the model.

| file | module | models |
|---|---|---|
| `common.dfy` | `Common` | the records of `common/src/lib.rs`, and `Outcome`: a value or a panic |
| `wrappers.dfy` | `Wrappers` | `Option` |
| `text.dfy` | `Text` | `starts_with`, `contains`, `find` on strings |
| `utf8.dfy` | `Utf8` | `as_bytes` / `String::from_utf8` (RFC 3629) |
| `percent.dfy` | `PercentEncoding` | `utf8_percent_encode(…, NON_ALPHANUMERIC)` and `percent_decode_str` (section 2.1 of RFC 3986) |
| `http.dfy` | `Http` | the parts of hyper's request and response the server reads or writes |
| `api_handler.dfy` | `ApiHandler` | `src/api_handler.rs`; the note directory is the field `files` of class `NoteStore` |
| `server.dfy` | `Server` | `src/lib.rs`: `Service::call`, `handle_static`, `build_404_response` |
| `selector.dfy` | `Selector` | `scrapnote/src/component/selector.rs`: class `State`, class `Selector`, and the state as a value (`StateValue`, `Step`) |
| `editor.dfy` | `Editor` | `scrapnote/src/component/editor.rs`: class `Editor`; host-editor calls and requests become `Effect`s |
| `shell.dfy` | `Shell` | `scrapnote/src/lib.rs`: class `ScrapNote` and its projection onto the panes' props |
| `wire.dfy` | `Wire` | what the client's request targets become on the server, and the two findings below |

## Modelling choices

- **The filesystem.**
  - The note directory is a `map<string, Node>`, where a node is a regular file (its bytes) or a directory.
  - `read_to_string` succeeds only on a regular file whose bytes are UTF-8.
  - `File::create` fails only on a directory.
  - The empty name makes `directory/`, which is the directory itself; `.` and `..` make `directory/.` and `directory/..`, the directory and its parent (`ApiHandler.IsDirectoryName`).
  - The order in which `read_dir` enumerates entries is not defined by the program. A listing therefore takes that enumeration as an input: a sequence of entries, each holding raw name bytes or an enumeration error. An absent sequence means `read_dir` failed.
- **Panics.**
  - On the server, `unwrap` / `expect` failures become the `Panics` case of `Common.Outcome`.
  - In the selector's listing callback, a panic is the `panicked` result of `DeliverFiles`.
- **Outstanding requests.** A request in flight is a freshly allocated task object (`Selector.FetchTask`, `Editor.FetchTask`, `Editor.SaveTask`). It is held in the component's `fetchTask` / `saveTask` field. A new request replaces the field, which drops the old task and with it the old callback. A delivered response takes effect only when its task is still the one in the field.
- **Integer width.**
  - `usize` is 32 bits, because the client runs as wasm32.
  - `Vec` is a sequence whose length is a `usize`.
  - The release-build semantics of `items.len() - 1` are written out: it wraps (`Selector.WrappingSub`).
- **Effects.**
  - Host-editor calls (`get_value`, `set_value`, `set_editable`, `focus`), `on_unfocus`, `send_message` and the requests become a sequence of `Editor.Effect`s.
  - `editorValue` is what `get_value()` returns when `Save` is handled.
  - The selector's callbacks and DOM calls are `Selector.Effect`s or flags.

### Where the code and its design description differ (the model follows the code)

- **The listing includes directories.** It lists every entry whose name is UTF-8 and contains the key. Subdirectories are not skipped.
- **Note names are not validated or decoded.** The name is the raw path after `/api/file/`. The empty name, `.` and `..` name the directory or its parent: a GET or POST of them panics, because the read fails and creating a directory as a file fails.
- **The highlight can go stale.** It is not kept inside the list when an empty list arrives. `on_file_updated` leaves the index as it was, so `IndexInRange` holds only vacuously until the next non-empty list clamps it.
- **A failed read always auto-creates the note.** Any read failure does this, including a note that exists but is not UTF-8. In that case the note is truncated to empty (`ApiHandler.GetIsTotal`).
- **Some static paths are unreachable.** Every path beginning with `/api` goes to the note API, even `/apix.js`. An asset whose name begins with `api` can never be served (`Server.ApiNamedAssetsAreUnreachable`).

## Model

| member | source | states |
|---|---|---|
| `Utf8.EncodeChar` | src/api_handler.rs:88 | a scalar value takes 1 to 4 bytes; exactly the ASCII ones take one byte equal to their code |
| `Utf8.Encode` | src/api_handler.rs:88 | `as_bytes` yields between 1 and 4 bytes per character |
| `Utf8.DecodeChar` | src/api_handler.rs:62 | a decoded scalar value consumes between 1 and 4 bytes of the input |
| `Utf8.Decode` | src/api_handler.rs:40 | a well-formed input decodes to a string of one character per 1 to 4 bytes, and an all-ASCII input decodes one character per byte (round trips: `Utf8.DecodeEncode`, `Utf8.EncodeDecode`) |
| `Utf8.DecodeCharEncodeChar` | src/api_handler.rs:62 | the bytes of a character, followed by anything, decode to that character and consume exactly its bytes |
| `Utf8.DecodeEncode` | src/api_handler.rs:62-65 | every string's UTF-8 bytes decode back to that string: what is written as bytes is read back |
| `Utf8.EncodeDecode` | src/api_handler.rs:40-41 | bytes accepted as UTF-8 re-encode to themselves, so two different accepted byte strings never give the same name |
| `Utf8.EncodeDecodeChar` | src/api_handler.rs:40-41 | the scalar value read from the head of the bytes encodes back to exactly the bytes consumed |
| `PercentEncoding.EncodeByte` | scrapnote/src/component/selector.rs:231 | one byte becomes 1 or 3 characters from the encoded alphabet; it stays one character exactly when it is an ASCII letter or digit |
| `PercentEncoding.Encode` | scrapnote/src/component/selector.rs:231 | the encoding consists only of letters, digits and `%`, with 1 to 3 characters per byte |
| `PercentEncoding.HexDigitValue` | scrapnote/src/component/selector.rs:231 | each upper-case hex digit written by the encoder reads back as its value |
| `PercentEncoding.Decode` | src/api_handler.rs:29-35 | the decoded bytes number between a third of the text's length and four times it (round trip: `PercentEncoding.DecodeEncode`) |
| `PercentEncoding.DecodeEncodeByte` | scrapnote/src/component/selector.rs:231 | decoding one encoded byte yields that byte, whatever text follows |
| `PercentEncoding.DecodeEncode` | scrapnote/src/component/selector.rs:229-232 | percent-decoding the encoder's output gives back exactly the encoded bytes |
| `PercentEncoding.DecodeWithoutEscapes` | scrapnote/src/component/selector.rs:229-232 | text with no `%` decodes to its own UTF-8 bytes |
| `Text.FindFrom` | src/api_handler.rs:31 | the search returns the first occurrence at or after the start index, or proves there is none |
| `Text.Find` | src/api_handler.rs:31 | `find` returns an index exactly when the pattern occurs; the index is the first occurrence |
| `Text.FindPrefix` | src/api_handler.rs:31 | a string beginning with the pattern is found at index 0 |
| `Text.StartsWithPrefix` | src/lib.rs:89 | a string that starts with `p + q` starts with `p` |
| `Http.NotFound` | src/lib.rs:17-19 | the 404 response has status 404 and an empty body |
| `ApiHandler.RouteApi` | src/api_handler.rs:16-22 | `/api/files…` goes to the listing; `/api/file/…` (not `/api/files…`) to the note handler; anything else gets 404; each in both directions |
| `ApiHandler.NotePathsReachNoteHandler` | src/api_handler.rs:16-19 | every `/api/file/<name>` path reaches the note handler, which recovers `<name>` |
| `ApiHandler.FilterKey` | src/api_handler.rs:29-35 | no query gives ""; a query without `key=` panics; otherwise the key is the raw rest of the query after the first `key=` |
| `ApiHandler.DecodedFilterKey` | src/api_handler.rs:29-35 | the corrected key panics exactly when the raw key does |
| `ApiHandler.FileNames` | src/api_handler.rs:38-41 | at most one name per enumerated entry |
| `ApiHandler.NameListed` | src/api_handler.rs:38-41 | a name survives both `filter_map`s exactly when some entry holds its UTF-8 bytes |
| `ApiHandler.MatchingItems` | src/api_handler.rs:42-46 | every item is a `File` whose name occurs among the names and contains the key |
| `ApiHandler.MatchingExactly` | src/api_handler.rs:42-46 | a name gets an item exactly when it is one of the names and contains the key |
| `ApiHandler.ListedExactly` | src/api_handler.rs:38-47 | a note is listed exactly when its name contains the key and one enumerated entry holds its UTF-8 bytes |
| `ApiHandler.ListingKeepsOrder` | src/api_handler.rs:38-47 | the listing distributes over concatenation of the enumeration, so it keeps enumeration order |
| `ApiHandler.NamesKeepOrder` | src/api_handler.rs:38-41 | the surviving names keep the enumeration order |
| `ApiHandler.MatchingKeepsOrder` | src/api_handler.rs:42-46 | the filter keeps the order of the names |
| `ApiHandler.EmptyKeyListsAll` | src/api_handler.rs:34 | with the empty key every name is listed, in order, as a `File` |
| `ApiHandler.ListItems` | src/api_handler.rs:38-47 | the listing has at most one item per entry, and every item is a `File` whose name contains the key |
| `ApiHandler.HandleFiles` | src/api_handler.rs:25-54 | a method other than GET answers 404; a GET panics when the query has no `key=` or `read_dir` fails, and otherwise answers 200 with exactly the listing for the key |
| `ApiHandler.NoteName` | src/api_handler.rs:57 | the note name is the path after `/api/file/`, verbatim |
| `ApiHandler.DecodedNoteName` | src/api_handler.rs:57 | the corrected name equals the raw name whenever the raw name holds no `%` |
| `ApiHandler.PlainNameDecodesToItself` | src/api_handler.rs:57 | a name without `%` percent-decodes and reads back as itself |
| `ApiHandler.Lookup` | src/api_handler.rs:58 | `directory/`, `directory/.` and `directory/..` name a directory whatever the store holds; any other name names its entry in the store, or nothing when it has none |
| `ApiHandler.ReadToString` | src/api_handler.rs:62 | a read succeeds only on a regular file, and the text read is exactly what its bytes encode; it succeeds on every regular file whose bytes are UTF-8 |
| `ApiHandler.Creatable` | src/api_handler.rs:68 | a name can be created exactly when it is not the empty name, `.` or `..` and its store entry, if any, is a regular file |
| `ApiHandler.FileExchange` | src/api_handler.rs:56-95 | only the named note can change; a method other than GET/POST answers 404; it panics exactly on a POST whose body does not parse, or a GET or parsed POST of a name that cannot be created (a directory); a panic or a method other than GET/POST changes nothing |
| `ApiHandler.ApiExchange` | src/api_handler.rs:10-23 | a listing path is answered by `HandleFiles`, a note path by `FileExchange`, any other path with 404, and only a note path can change the store |
| `ApiHandler.GetReturnsContent` | src/api_handler.rs:60-65 | GET of a readable note, whose name is not the directory or its parent, returns its content and leaves the store unchanged |
| `ApiHandler.GetIsTotal` | src/api_handler.rs:60-78 | for a name that is not a directory, GET answers 200 and leaves the note readable, and when the read failed the note becomes empty and the answer is "". |
| `ApiHandler.GetIsIdempotent` | src/api_handler.rs:60-78 | a second GET answers like the first and leaves the same store |
| `ApiHandler.PostOverwrites` | src/api_handler.rs:81-90 | POST sets exactly the named note to the UTF-8 bytes of the content and answers 200 with an empty body |
| `ApiHandler.GetAfterPost` | src/api_handler.rs:81-90 | a GET after a POST returns exactly the posted content |
| `ApiHandler.CreatedNoteIsListed` | src/api_handler.rs:66-68 | a note that a GET created appears in every later listing whose key it contains |
| `ApiHandler.NoteStore.HandleFile` | src/api_handler.rs:56-95 | the in-place update of the directory is the one `FileExchange` specifies |
| `ApiHandler.NoteStore.HandleApiRequest` | src/api_handler.rs:10-23 | the response and the new directory are those of `ApiExchange` |
| `Server.Dispatch` | src/lib.rs:87-94 | a request goes to the note API exactly when its path starts with `/api` |
| `Server.AssetName` | src/lib.rs:22-28 | only GET names an asset; GET `/` names `index.html`, and any other path names itself without the leading `/` |
| `Server.HandleStatic` | src/lib.rs:21-39 | 200 exactly when GET names an existing asset, with that asset's bytes; otherwise the 404 response |
| `Server.StaticServesAssets` | src/lib.rs:22-35 | GET `/<name>` serves asset `<name>`, and GET `/` serves `index.html` |
| `Server.ApiNamedAssetsAreUnreachable` | src/lib.rs:89-90 | every path `/api…` is dispatched to the API, so assets named `api…` are never served |
| `Server.NoteApiIsDispatched` | src/lib.rs:89-90 | every listing and note path is dispatched to the note API |
| `Server.CallExchange` | src/lib.rs:87-94 | an `/api…` path is answered by `ApiExchange`; any other path is answered by `HandleStatic` and never changes the note directory |
| `Server.Service.Call` | src/lib.rs:87-94 | the response and the new directory are those of `CallExchange` |
| `Selector.WrappingSub` | scrapnote/src/component/selector.rs:51-52 | `usize` subtraction in a release build: the difference, or the difference plus 2^32 when it underflows |
| `Selector.ShouldPreventDefault` | scrapnote/src/component/selector.rs:163-168 | only a Ctrl chord on a single lower-case letter is suppressed; without Ctrl, or for Enter, nothing is |
| `Selector.KeyDownMsg` | scrapnote/src/component/selector.rs:163-187 | Ctrl+a gives MoveCaretToFirst, Ctrl+e MoveCaretToEnd, Ctrl+p MoveSelectionUp and Ctrl+n MoveSelectionDown, each iff that chord, and these are exactly the chords whose default is prevented; Enter with or without Ctrl gives Enter; every other key gives `None` with the composing flag |
| `Selector.QueryString` | scrapnote/src/component/selector.rs:226-233 | the query is empty exactly when the input is |
| `Selector.QueryStringRoundTrip` | scrapnote/src/component/selector.rs:226-233 | a non-empty input gives `?key=` followed by text that percent-decodes to the input's UTF-8 bytes |
| `Selector.FilesUrl` | scrapnote/src/component/selector.rs:226-235 | the listing target starts with `/api/files` and is exactly that path when the input is empty |
| `Selector.FileUpdated` | scrapnote/src/component/selector.rs:49-54 | the items are replaced; a non-empty list clamps the highlight to `min(old, len - 1)`; an empty list leaves it; the highlight stays in range |
| `Selector.Step` | scrapnote/src/component/selector.rs:89-128 | each message changes only its own fields; `None` sets the composing flag to the one it carries and changes nothing else; it re-renders exactly on up, down and a new list; Ctrl+a moves the caret to the start and Ctrl+e to the end; `None`, up, down and a new list have no other effect; only Enter selects; a query is issued only for the stored input; the highlight invariant is preserved |
| `Selector.Picked` | scrapnote/src/component/selector.rs:116-120 | Enter picks the highlighted item's name when there are items, and the raw input when there are none |
| `Selector.InputGuard` | scrapnote/src/component/selector.rs:94-99 | an input is ignored exactly when composing and empty; otherwise it is queried and stored |
| `Selector.NavigationSaturates` | scrapnote/src/component/selector.rs:106-115 | Up saturates at 0, Down at the last item, and each changes only the highlight |
| `Selector.EnterPicks` | scrapnote/src/component/selector.rs:116-121 | Enter leaves the state and selects the highlighted item's name, or the raw input when there is none |
| `Selector.RunKeepsIndexInRange` | scrapnote/src/component/selector.rs:89-128 | over any message sequence the highlight designates an item whenever there is one |
| `Selector.RunShowsLastUpdate` | scrapnote/src/component/selector.rs:122-125 | the items shown are those of the last UpdateFiles, the one no other UpdateFiles follows; with none the list is unchanged |
| `Selector.State.constructor` | scrapnote/src/component/selector.rs:32-39 | the initial state: not composing, empty input, no items, highlight 0 |
| `Selector.State.OnInput` | scrapnote/src/component/selector.rs:41-43 | only the input changes |
| `Selector.State.OnComposingStateChanged` | scrapnote/src/component/selector.rs:45-47 | only the composing flag changes |
| `Selector.State.OnFileUpdated` | scrapnote/src/component/selector.rs:49-54 | the in-place update is `FileUpdated`, wrap-around included |
| `Selector.Selector.constructor` | scrapnote/src/component/selector.rs:79-87 | the initial state and no outstanding request |
| `Selector.Selector.QueryFiles` | scrapnote/src/component/selector.rs:224-248 | a new request for the input's listing target replaces the outstanding one |
| `Selector.Selector.Update` | scrapnote/src/component/selector.rs:89-128 | the new state, render flag and effect are `Step`'s; a new request exactly when a query is issued |
| `Selector.Selector.Change` | scrapnote/src/component/selector.rs:130-136 | the props are replaced; the input is focused exactly when `focus` is set; no re-render |
| `Selector.Selector.Rendered` | scrapnote/src/component/selector.rs:150-158 | the first render focuses the input and requests the unfiltered listing; later renders request nothing |
| `Selector.Selector.DeliverFiles` | scrapnote/src/component/selector.rs:240-247 | only the outstanding request's response applies; a failed one panics; a superseded one changes nothing |
| `Editor.KeyPressMsg` | scrapnote/src/component/editor.rs:90-95 | Escape gives Save; every other key gives `None` |
| `Editor.ContentResponseMsg` | scrapnote/src/component/editor.rs:112-121 | a parsed response loads its content; a failed one gives `None` |
| `Editor.SaveResponseMsg` | scrapnote/src/component/editor.rs:138-140 | every save response, success or failure, gives Unfocus |
| `Editor.FileUrl` | scrapnote/src/component/editor.rs:104-108 | the note's target is `/api/file/` followed by the name, verbatim |
| `Editor.EncodedFileUrl` | scrapnote/src/component/editor.rs:104-108 | the corrected target is `/api/file/` followed only by letters, digits and `%`, so it holds no `?`, `#` or `/` |
| `Editor.UpdateEffects` | scrapnote/src/component/editor.rs:55-74 | Save with a bound note saves (name, buffer) as its only effect, and without one only queues Unfocus; Unfocus only emits `on_unfocus`; loading gives exactly set-value of the content, then set-editable(true), then focus only when focused; `None` does nothing |
| `Editor.EscapeReleasesOnce` | scrapnote/src/component/editor.rs:57-63 | Escape leads to exactly one `on_unfocus`, through the save's response or the queued Unfocus |
| `Editor.Editor.constructor` | scrapnote/src/component/editor.rs:44-52 | the props, and no outstanding load or save |
| `Editor.Editor.GetContents` | scrapnote/src/component/editor.rs:102-125 | a new load of the note, at `FileUrl` of its name, replaces the outstanding one |
| `Editor.Editor.SaveContent` | scrapnote/src/component/editor.rs:127-143 | a new save of (name, content), at `FileUrl` of the name, replaces the outstanding one |
| `Editor.Editor.Update` | scrapnote/src/component/editor.rs:55-74 | the effects are `UpdateEffects`; a save to the bound note's target starts exactly on Save with a bound note; never a re-render |
| `Editor.Editor.Change` | scrapnote/src/component/editor.rs:77-83 | every props value binding a note loads it from its target, even an unchanged one; the props are replaced |
| `Editor.Editor.DeliverContents` | scrapnote/src/component/editor.rs:112-124 | only the outstanding load's response has an effect |
| `Editor.Editor.DeliverSaved` | scrapnote/src/component/editor.rs:138-142 | only the outstanding save's response has an effect, and that effect is emitting `on_unfocus` |
| `Shell.LastSelectedIsLast` | scrapnote/src/lib.rs:35-39 | `LastSelected` is the name of the FileSelect no other follows, and None without one |
| `Shell.Step` | scrapnote/src/lib.rs:33-46 | FileSelect binds and focuses the editor; FocusCommand focuses the selector; CommandSelect changes nothing; only FileSelect changes the bound note |
| `Shell.EditingIsLastSelected` | scrapnote/src/lib.rs:33-46 | `editing` is the name of the last FileSelect |
| `Shell.NotEditingIffNeverSelected` | scrapnote/src/lib.rs:33-46 | `editing` is None exactly when no FileSelect has happened |
| `Shell.FocusFollowsLastMove` | scrapnote/src/lib.rs:33-46 | the editor has focus exactly when the last FileSelect/FocusCommand was a FileSelect |
| `Shell.View` | scrapnote/src/lib.rs:52-84 | exactly one pane is focused; the selector iff `focus == Command`; the editor's note is `editing` |
| `Shell.ScrapNote.constructor` | scrapnote/src/lib.rs:25-31 | focus on the selector, no note bound |
| `Shell.ScrapNote.Update` | scrapnote/src/lib.rs:33-46 | the fields follow `Step`; the state stays the fold of the handled messages; always a re-render |
| `Shell.ScrapNote.ViewProps` | scrapnote/src/lib.rs:52-84 | exactly one pane is focused and the editor's note is `editing` |
| `Wire.SplitTarget` | src/api_handler.rs:29 | the path and `?query` together are exactly the text before the first `#`; the path holds no `?` or `#`, so it ends at the first `?`, and the query holds no `#`; the fragment is dropped |
| `Wire.SplitAfterPath` | src/api_handler.rs:29 | a target whose path holds no `?` or `#` and whose query holds no `#` splits right after that path |
| `Wire.BeforeFragment` | src/api_handler.rs:29 | the kept text is a prefix with no `#`; when the text holds a `#`, the kept text stops right before its first one, and otherwise it is the whole text |
| `Wire.SplitAtFragment` | src/api_handler.rs:29 | a plain path followed by `#` and anything splits into that path alone, with no query |
| `Wire.ListingRequestReachesServer` | scrapnote/src/component/selector.rs:224-235 | the selector's target arrives as path `/api/files`, routed to the listing, with query `key=` and the encoded input |
| `Wire.ServerKeyIsEncodedInput` | src/api_handler.rs:29-35 | the server's filter key is the percent-encoded input, not the input |
| `Wire.EncodedKeyMissesNote` | src/api_handler.rs:42 | typing "a b" filters by "a%20b" and misses the note "a b", which the key "a b" lists |
| `Wire.DecodedKeyRoundTrip` | src/api_handler.rs:29-35 | the corrected key is exactly the typed input, for every input |
| `Wire.DecodedKeyListsTypedText` | src/api_handler.rs:38-47 | with the corrected key, a note is listed exactly when its name contains the typed text |
| `Wire.QuestionMarkCutsNoteName` | scrapnote/src/component/editor.rs:104-108 | the note "a?b" is read and written on the server as the note "a" |
| `Wire.HashCutsNoteName` | scrapnote/src/component/editor.rs:104-108 | the note "C#" is read and written on the server as the note "C" |
| `Wire.PlainNoteNameReachesServer` | scrapnote/src/component/editor.rs:104-108 | a name without `?` or `#` arrives as the path `/api/file/<name>` with no query, reaches the note handler, and is read back as that name |
| `Wire.EncodedNoteNameRoundTrip` | scrapnote/src/component/editor.rs:104-108 | with the name encoded and decoded, every note name reaches the note handler intact |

## Left out

- I/O and the runtime are left out: hyper, tokio, `start_server`, `MakeService`, the port, and `FetchService`. A request is a value; a response is a value delivered to a task.
- Starting a fetch can fail (`FetchService::fetch(...).expect`). That failure is not modelled: a request always starts.
- The body-reading error of `hyper::body::aggregate` is not modelled. A POST body is a parsed `SaveFileContentRequest`, or absent when it does not parse, and then the server panics.
- Serde JSON encoding and decoding are not modelled. The records are datatypes, and a body that does not parse is `None`.
- The bundled assets (`RustEmbed`) are a map from asset name to bytes.
- The `println!` / `log::info!` logging is not modelled. It has no effect on state.
- DOM and host-editor effects are opaque effects or flags. This covers `focus_input`, `scroll_list`, `move_caret` with its byte length, and `get_value`/`set_value`/`set_editable`/`focus`. The editor glue in `scrapnote/js` and `scrapnote/main.js` is not part of this model.
- `view`'s HTML of the selector list is not modelled. Only the highlight index it reads is part of the state.
- Path resolution of names holding `/` is not modelled: such a name is a key of the directory map, not a path into a subdirectory. The dot names `.` and `..` alone are modelled, as directories.
- Browser URL normalisation (such as escaping a space in a path) is not modelled. `Wire` works on request targets as the client writes them.
- `src/main.rs` and `src/config.rs` are not part of this model. They hold the window setup and the directory setting.
- `Wire.PlainNoteNameReachesServer`: "intact" holds for request targets as the client writes them. A space or a non-ASCII character in a name is not a legal URI character. The URI builder either escapes it or rejects it, and a rejection makes the `.unwrap()` at `scrapnote/src/component/editor.rs:110` and `:136` panic. Neither is modelled.
- `Selector.State.OnFileUpdated`: the debug-build panic on `0 - 1` is not modelled. The model follows the release build, where the subtraction wraps.
- `ApiHandler.FileNames`: its own contract only bounds the number of names. Which names it keeps is stated by `ApiHandler.NameListed`.
- `Selector.QueryString`: its own contract only says when the query is empty. Its content is stated by `Selector.QueryStringRoundTrip` and `Wire.ListingRequestReachesServer`.

## Findings

| source | as written | input that shows it | evidently intended | confidence | as-written member | corrected member |
|---|---|---|---|---|---|---|
| src/api_handler.rs:29-35 | the filter key is the raw query text, still percent-encoded by the selector | typing "a b" sends `key=a%20b`; the note "a b" does not contain "a%20b" and is not listed | the key is percent-decoded, so the listing holds the notes containing the typed text | high (not executed) | `Wire.EncodedKeyMissesNote` | `Wire.DecodedKeyListsTypedText` |
| scrapnote/src/component/editor.rs:104-108 | the note name is put into the request target unencoded | picking the note "a?b" loads and saves the note "a", with "b" as the query | the name is encoded as one path segment and decoded by the server | high (not executed) | `Wire.QuestionMarkCutsNoteName` | `Wire.EncodedNoteNameRoundTrip` |
| scrapnote/src/component/editor.rs:130-134 | the same unencoded name, where a `#` starts a fragment that is never sent | picking the note "C#" loads and saves the note "C" | the name is encoded as one path segment, so `#` travels as `%23` | high (not executed) | `Wire.HashCutsNoteName` | `Wire.EncodedNoteNameRoundTrip` |

The corrected definitions are `ApiHandler.DecodedFilterKey` (with `Wire.DecodedKeyRoundTrip`) and `Editor.EncodedFileUrl` with `ApiHandler.DecodedNoteName`. `Editor.EncodedFileUrl` holds only letters, digits and `%` after the prefix, so neither `?` nor `#` can cut it short. The server and editor models keep the behaviour as written, because they model the code. The corrected definitions are used by the `Wire` lemmas, which prove that every typed filter and every note name would then arrive intact.
