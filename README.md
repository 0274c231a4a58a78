# README builder core: chunking, upload names and file discovery

The service takes an uploaded project folder, saves its files, and asks a
completion service to summarise each of them. Files longer than 3000
characters are summarised in overlapping chunks. This project models the
parts of `main.py` that compute something. It proves properties of them.

- `chunker.dfy`, module `Chunker`. This is the fallback branch of
  `chunk_code_text`, taken when the text-splitter library is not installed.
  - `ChunkCodeText` is the `while` loop over the `start`/`end` offsets.
  - The loop is specified by the window recurrence `WindowsFrom` and the
    slices `Chunks` it selects.
  - `FileChunks` is the chunk selection of the `/llm` endpoint: texts of at
    most 3000 characters are kept whole, longer ones are chunked with 2500/200.
- `uploads.dfy`, module `Uploads`. This is the file-name sanitiser of the
  `/save` endpoint, `name.replace("..", "").lstrip("/\\")`.
- `discovery.dfy`, module `Discovery`. This is `get_all_files`:
  - `os.path.splitext` on a bare file name;
  - ASCII lower-casing;
  - the extension allow-list and the skip set of directory names;
  - the top-down walk over an in-memory directory tree. Like `os.walk`, it
    pops a directory, lets the caller prune its subdirectory list, and pushes
    the survivors in reverse.

Three behaviours of this code are easy to mispredict, and the model
states them as the code has them:

- For a 7000-character text with chunk size 2500 and overlap 200, the start
  offsets are 0, 2300, 4600 and **6800**. The loop runs while
  `start < len`, so after the chunk that reaches the end it emits one more
  chunk holding the last 200 characters. `SevenThousandExample` and
  `TrailingWindow` state this.
- A text no longer than the chunk size comes back as **two** chunks when it
  is longer than a positive overlap: the text, then its last `overlap`
  characters (`ShortTextTwoChunks`). At the `/llm` call site this never
  shows, because texts up to 3000 characters are not chunked.
- The sanitiser deletes every occurrence of `..` anywhere in the name, not
  only `..` path segments. A run of `k` dots between two characters that
  are not dots keeps `k mod 2` of them, so `a..b.txt` becomes `ab.txt` and
  `a...b` becomes `a.b` (`RunInName`). A drive prefix such as `C:` is not
  stripped.

## Model

| member | source | states |
|---|---|---|
| Chunker.NextStart | main.py:75 | The next start is the previous end minus the overlap or the previous end; it lies strictly past a non-empty window's start, and not past its end when the overlap is non-negative (`WindowsAdvance` carries this over to all windows) |
| Chunker.ChunkCodeText | main.py:68-77 | The loop terminates for any chunk size of at least 1 and returns exactly the slices of the window recurrence (`Chunks`) |
| Chunker.WindowsFrom | main.py:72-75 | Every window the loop visits from a cursor satisfies `cursor <= s < e <= len` and `e - s <= chunk_size`; there are none exactly when the cursor is at or past the end; the first begins at the cursor |
| Chunker.Chunks | main.py:68-77 | Empty text gives no chunks and non-empty text gives at least one; every chunk is non-empty and at most `chunk_size` long |
| Chunker.ChunksAreSlices | main.py:73-74 | Chunk `i` is `text[s_i:e_i]` for its window, with `0 <= s_i < e_i <= len` and `e_i - s_i <= chunk_size` |
| Chunker.LoopStep | main.py:73-75 | One turn of the loop emits `text[start:end]` and moves the cursor strictly forward, leaving the rest of the output unchanged |
| Chunker.WindowsCharacterised | main.py:72-75 | The loop's windows are the one and only sequence that starts at 0, has windows of length `min(chunk_size, len - start)`, links each window to the next by the advance rule, and stops once the next start reaches the end |
| Chunker.WindowsAdvance | main.py:73-75 | Starts strictly increase; each new start is the previous end minus the overlap, or the previous end; with a non-negative overlap there is no gap and the last window ends at `len` |
| Chunker.WindowsOverlap | main.py:75 | With a non-negative overlap, consecutive windows share exactly `overlap` characters when `overlap < chunk_size`, and none otherwise; in that case every window but the last is `chunk_size` long, so the windows partition the text |
| Chunker.TrailingWindow | main.py:72-75 | With `0 < overlap < chunk_size` and a text longer than the overlap there are at least two windows; the last is exactly the final `overlap` characters and the one before it also ends at `len` |
| Chunker.SevenThousandExample | main.py:72-75 | 7000 characters with 2500/200 give the windows [0,2500), [2300,4800), [4600,7000), [6800,7000) |
| Chunker.ShortTextTwoChunks | main.py:72-75 | With `0 < overlap < len <= chunk_size` the chunks are `[text, text[len-overlap:]]`; for 1000 characters and 2500/200 that is `[text, text[800:]]` |
| Chunker.StitchFrom | main.py:73-75 | From any cursor inside the text, the remaining chunks joined with each later chunk's shared prefix dropped give back the text from the cursor on |
| Chunker.Reconstruct | main.py:73-75 | With a non-negative overlap, chunk 0 followed by every later chunk without its first `prev_end - start` characters gives back the text exactly |
| Chunker.FileChunks | main.py:178-181 | One chunk exactly when the text has at most 3000 characters, and that chunk is the whole text, empty text included; otherwise at least two chunks of at most 3000 characters; the chunks always stitch back to the text with overlap 200; a longer text gets exactly `chunk_code_text`'s chunks for 2500/200 |
| Uploads.RemoveDotDot | main.py:115 | `replace("..", "")` never leaves two consecutive dots, never lengthens the name, and keeps a first character that is not a dot |
| Uploads.StripLeadingSeparators | main.py:115 | `lstrip("/\\")` returns a suffix of its input; everything it removed is a slash or backslash, and the result does not start with one |
| Uploads.SanitizeFilename | main.py:115 | The saved name never contains `..` and never starts with `/` or `\` |
| Uploads.RemoveDotDotIdentity | main.py:115 | A name without `..` is left unchanged by the replacement |
| Uploads.SanitizeIdempotent | main.py:115 | Sanitising a sanitised name changes nothing |
| Uploads.RemoveDotDotKeepsNonDots | main.py:115 | The replacement removes only dots: every other character survives, in order |
| Uploads.DotRun | main.py:115 | A run of `k` dots becomes `k mod 2` dots, because matches are taken left to right without overlap |
| Uploads.DotsThen | main.py:115 | A run of `k` dots followed by a non-dot or nothing keeps `k mod 2` dots, and the rest is processed on its own |
| Uploads.RemoveDotDotAppend | main.py:115 | When the first part does not end in a dot, no match straddles the join, so the replacement acts on each part separately |
| Uploads.RunInName | main.py:115 | A run of `k` dots between characters that are not dots keeps `k mod 2` of them, and the text on either side is processed on its own |
| Uploads.ParentStepIgnored | main.py:115 | A leading `../` or `..\` is dropped, so the name is saved where it would be saved without it |
| Discovery.Lower | main.py:49 | ASCII `.lower()` keeps the length; `ExtLower` shows it commutes with taking the extension and `KeptCaseInsensitive` that the filter ignores case |
| Discovery.LastDotBefore | main.py:49 | The index it returns is a dot (or -1), and no dot follows it within the first `n` characters |
| Discovery.LastDot | main.py:49 | The last dot of the name, or -1 when there is none |
| Discovery.SplitExt | main.py:49 | Root and extension concatenate to the name; a non-empty extension starts at the last dot and has a non-dot before it; an empty extension means no dot qualifies |
| Discovery.ExtCharacterised | main.py:49 | A name has an extension exactly when it has a last dot preceded by something other than dots, and the extension is then the suffix from that dot |
| Discovery.LastDotLower | main.py:49 | Lower-casing leaves the position of the last dot unchanged |
| Discovery.ExtLower | main.py:49 | The extension of the lower-cased name is the lower-cased extension |
| Discovery.Kept | main.py:49-50 | A name without an extension is never kept; `ExtCharacterised` and `KeptCaseInsensitive` give its meaning in terms of the last dot and of case |
| Discovery.KeptCaseInsensitive | main.py:49-50 | Names equal after lower-casing are kept or dropped together |
| Discovery.KeptExamples | main.py:34-50 | `A.MD` is kept; `.md` has no extension and is dropped; `notes.md.bak` is judged by `.bak` and dropped |
| Discovery.Prune | main.py:46 | The filtered list is never longer than the original; `PruneMembers` and `PruneAppend` state what it keeps and that it keeps their order |
| Discovery.PruneMembers | main.py:45-46 | The pruned list holds exactly the subdirectories whose name is not in the skip set |
| Discovery.PruneAppend | main.py:46 | Pruning distributes over concatenation, so the subdirectories it keeps stay in their relative order |
| Discovery.CollectMembers | main.py:43-51 | A path is in the walk's result exactly when it names a kept file reachable without entering a pruned directory; the walked folder's own name plays no part, so the root is never pruned |
| Discovery.ReachableSafe | main.py:45-51 | Every reachable path ends in an allow-listed name and passes through no directory in the skip set |
| Discovery.AppendKeptFiles | main.py:48-51 | The file loop appends `root/file` for every file whose extension is allowed, in listing order |
| Discovery.PushReversed | main.py:43-46 | The new stack is the old one with the frames of the pruned subdirectories pushed last first, so the first is on top; everything below them comes out, first subdirectory first, ahead of what the stack already held; the work left grows by their sizes |
| Discovery.Walk | main.py:42-53 | The stack walk terminates and returns, in order, the root's kept files and then everything below each unpruned subdirectory |
| Discovery.GetAllFiles | main.py:40-53 | The returned paths are exactly the reachable kept files; each ends in an allow-listed name and passes through no skipped directory |

## Left out

- The `RecursiveCharacterTextSplitter` branch of `chunk_code_text` (main.py:13-17, 59-65) is not modelled. It is a call into a library whose behaviour is not visible here, so only the fallback loop is.
- Chunker.ChunkCodeText requires `chunk_size >= 1`, the only call site passing 2500. With `chunk_size <= 0` the source loop never ends when `overlap >= chunk_size`; otherwise it ends after emitting empty or negative-index slices, which the model does not cover.
- The overlap is an unrestricted integer, but the gap-free, overlap and reconstruction lemmas require it to be non-negative. A negative overlap leaves gaps between chunks.
- `llm_call` and the Groq client (main.py:21, 81-96) are left out. They are network calls whose results are not deterministic.
- The FastAPI endpoints, `FileResponse`, the upload reading and the prompt texts (main.py:100-294) are left out. They are HTTP plumbing and string orchestration around the completion service's replies.
- Filesystem effects are left out, because they are I/O:
  - deleting and recreating the upload folder;
  - creating directories;
  - reading and writing files, including `store.txt` and the generated documents.
- `os.path.join` is modelled as appending one component to a path held as a sequence of components. Separators and the Windows upload root are not modelled.
- Discovery.Walk models the order of `os.walk` on an in-memory tree whose listings are given. The real file system's listing order, symbolic links and errors during the walk are left out.
- Discovery.SplitExt models `os.path.splitext` on bare file names only. `os.walk` hands over bare names, so directory separators inside a name never arise.
- Discovery.Lower is ASCII lower-casing. Unicode case mapping of `str.lower` is left out.
- The sanitiser's result is not joined to the upload root. The model states what the name is, not where the file ends up on disk.
