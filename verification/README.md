# Chunking, retrieval bookkeeping and assistant file harvesting — a Dafny model

Two small scripts drive remote language-model services. Between their API
calls sit a few pieces of deterministic logic. This project models those
pieces and proves what they guarantee.

* **Retrieval script** (`ross-3-response-api.py`):
  * `chunk_text` cuts a text into overlapping windows
    `[i, min(i + size, n))`, strips each window, keeps the non-empty ones,
    and resumes at `max(0, j - overlap)`.
  * `retrieve` turns a ranked list of index hits into chunks, skipping the
    `-1` "no neighbour" sentinel.
  * `main` assembles the corpus from the configured files. It skips
    missing files with a warning and stops before indexing when no usable
    text was extracted.
* **Assistant script** (`ross-1-assistant-api.py`):
  * `print_message_content` shows each content part of a message by its
    type and collects the file identifiers of image and output-file parts.
  * `run_assistant_and_get_outputs` gives up unless the run completed. It
    then harvests only the assistant's messages and tries each distinct
    identifier once. A failed download is reported, and the other
    downloads still go ahead.
  * `download_file` saves under the remote file name, or under
    `<file id>.bin` when there is none.

Modules follow the scripts:

* `Wrappers`: `Option`, `Result`, `Outcome`.
* `Seqs`: filtering, the positions of kept elements, distinctness.
* `Whitespace`: Python's `str.strip` with the exact `str.isspace` set.
* `Chunking`: the windows, their tiling, the chunker and its loop.
* `Retrieval`: `retrieve` and corpus assembly.
* `MessageContent`: content parts and `print_message_content`.
* `AssistantRun`: the run gate, role filter, download loop and file-name
  fallback.

## The window sequence

The chunker's windows are characterised independently of the loop.

* A sequence of windows *tiles* a text of length `n` when:
  * it starts at 0 and ends at `n`;
  * no window is empty or longer than `size`;
  * every window but the last is full-size and ends before `n`;
  * each next window starts `overlap` characters before the previous one
    ends.
* The loop's windows are the unique tiling (`Chunking.WindowsCharacterized`).
  Coverage, order and termination are proved from that.
* The `max(0, …)` clamp never fires: the next start is `j - overlap` with
  `j >= size > overlap`.

## Edge behaviour of the chunker

* Every window, the last one included, is at most `size` characters long
  (`j = min(i + size, n)` at ross-3-response-api.py:47).
* Windows that are all whitespace do occur. Their stripped text is empty
  and is dropped at ross-3-response-api.py:49, so every kept chunk is
  non-empty.

## Model

| member | source | states |
|---|---|---|
| Whitespace.Strip | ross-3-response-api.py:48 | `str.strip()` never lengthens its input; StripBoundsSpec and StripSpec state what it keeps |
| Whitespace.StripBoundsSpec | ross-3-response-api.py:48 | what `strip` removes is whitespace at both ends, the kept part starts and ends with non-whitespace, and every non-whitespace character lies inside the kept part |
| Whitespace.StripSpec | ross-3-response-api.py:48 | a stripped window is empty exactly when the window is all whitespace; otherwise it begins and ends with non-whitespace |
| Whitespace.StripIdempotent | ross-3-response-api.py:48 | stripping an already stripped chunk changes nothing |
| Whitespace.StripKeeps | ross-3-response-api.py:48 | each non-whitespace character survives stripping at its offset into the kept part |
| Chunking.WindowsFrom | ross-3-response-api.py:46-51 | every window the loop cuts lies within the text |
| Chunking.Windows | ross-3-response-api.py:45-51 | the windows the loop cuts over the whole text all lie within it; WindowsCharacterized identifies them as the unique tiling |
| Chunking.WindowsTile | ross-3-response-api.py:46-51 | the loop's windows tile the text: the first starts at 0, the last ends at `n`, none is empty or longer than `size`, and each later one starts `overlap` before the previous end (so the clamp never fires) |
| Chunking.WindowsCharacterized | ross-3-response-api.py:46-51 | a window sequence tiles the text if and only if it is the loop's window sequence |
| Chunking.TilingUnique | ross-3-response-api.py:46-51 | at most one window sequence tiles a given range |
| Chunking.TilesSingle | ross-3-response-api.py:47-50 | the scan cuts a single window exactly when the remaining text fits in one window |
| Chunking.CoveringWindow | ross-3-response-api.py:47-51 | every index of the text lies inside some window |
| Chunking.WindowStep | ross-3-response-api.py:47-51 | one iteration: the window ends at `min(i + size, n)`, is the last exactly when it reaches `n`, and otherwise the next start `max(0, j - overlap)` is strictly larger than `i` and below `n` (termination) |
| Chunking.Pieces | ross-3-response-api.py:48 | one stripped piece per window, in window order |
| Chunking.ChunkText | ross-3-response-api.py:44-52 | empty text gives no chunks, there are at most as many chunks as windows, and every chunk is non-empty and at most `size` long |
| Chunking.ChunkTextLoop | ross-3-response-api.py:44-52 | the while loop as written terminates whenever `0 <= overlap < size` and returns exactly the non-empty stripped windows in window order |
| Chunking.ChunkTextShort | ross-3-response-api.py:46-50 | a text no longer than `size` yields `[strip(text)]`, or `[]` when it is all whitespace |
| Chunking.ChunkTextOrigins | ross-3-response-api.py:46-49 | the m-th chunk is the stripped text of a window, those windows come in ascending document order, and every window left out is whitespace only |
| Chunking.ChunkTextCovers | ross-3-response-api.py:46-51 | every non-whitespace character of the text appears in some chunk whose window contains it |
| Chunking.PieceKeeps | ross-3-response-api.py:48-49 | a window holding a non-whitespace character yields a kept chunk containing it |
| Chunking.ChunkTextEmptyIff | ross-3-response-api.py:45-49 | the chunker returns nothing exactly when the text is empty or all whitespace |
| Retrieval.Retrieve | ross-3-response-api.py:70 | no more chunks than hits, each one of the indexed chunks |
| Retrieval.RetrieveKeepsRanking | ross-3-response-api.py:70 | the result is the chunk of each non-sentinel hit, in ranking order, and the sentinel is dropped |
| Retrieval.RetrieveBounded | ross-3-response-api.py:67-70 | a search for `k` neighbours yields at most `k` chunks, each an indexed chunk, and none at all when every hit is the sentinel |
| Retrieval.RetrieveTopK | ross-3-response-api.py:74 | the answer step, asking for `TopK` (6) neighbours, receives at most 6 chunks, and none when every hit is the sentinel |
| Retrieval.Corpus | ross-3-response-api.py:94-99 | every corpus chunk is non-empty and at most the window size |
| Retrieval.Missing | ross-3-response-api.py:95-98 | the warned paths are exactly the configured paths that do not exist |
| Retrieval.MissingInOrder | ross-3-response-api.py:95-98 | the warned paths are the missing ones in configured order, each as often as configured |
| Retrieval.CorpusAppend | ross-3-response-api.py:95-99 | the corpus of two path lists is the concatenation of their corpora, preserving file order |
| Retrieval.CorpusSkipsMissing | ross-3-response-api.py:95-99 | missing files contribute nothing: the corpus equals that of the existing paths alone |
| Retrieval.CorpusEmptyIff | ross-3-response-api.py:94-103 | the corpus is empty exactly when every existing file extracts to whitespace only |
| Retrieval.AssembleCorpus | ross-3-response-api.py:93-103 | the loop as written warns about exactly the missing paths, builds the in-order concatenation of the chunks of the existing files, and stops before indexing exactly when that corpus is empty |
| MessageContent.Show | ross-1-assistant-api.py:21-33 | exactly the image and output-file parts are displayed with a file identifier, and it is their own |
| MessageContent.ShowParts | ross-1-assistant-api.py:19-33 | one display per part, in part order, each the display of that part |
| MessageContent.FileIds | ross-1-assistant-api.py:18-34 | no more identifiers than content parts |
| MessageContent.FileIdsOfFileParts | ross-1-assistant-api.py:18-34 | the identifier list is exactly the identifiers of the image and output-file parts, in part order |
| MessageContent.OtherPartsIgnored | ross-1-assistant-api.py:21-33 | text, sandbox-path and unrecognised parts add no identifiers |
| MessageContent.FileIdsComplete | ross-1-assistant-api.py:24-29 | every image and output-file identifier is collected, at its position among the file-carrying parts |
| MessageContent.PrintMessageContent | ross-1-assistant-api.py:16-34 | every part is shown by its type, none aborts processing, and the returned identifiers are those of the image and output-file parts in order |
| AssistantRun.SavedName | ross-1-assistant-api.py:39 | the name is the remote file name when present and non-empty, otherwise the file id followed by `.bin`; it is never empty |
| AssistantRun.DownloadFile | ross-1-assistant-api.py:36-44 | a file is saved, under that name, exactly when metadata, content and writing all succeed; otherwise the failure is reported for that identifier |
| AssistantRun.CollectFileIds | ross-1-assistant-api.py:70-74 | no more identifiers are collected than parts are shown |
| AssistantRun.ShownMessages | ross-1-assistant-api.py:71-73 | when no listed message is from the assistant, nothing is shown |
| AssistantRun.OnlyAssistantContributes | ross-1-assistant-api.py:70-74 | dropping every non-assistant message leaves the collected identifiers unchanged |
| AssistantRun.OnlyAssistantShown | ross-1-assistant-api.py:71-73 | dropping every non-assistant message leaves the shown parts unchanged: a non-assistant message shows nothing, whatever else is listed |
| AssistantRun.CollectedFromAssistant | ross-1-assistant-api.py:70-74 | every collected identifier comes from an image or output-file part of an assistant message (CollectComplete gives the converse) |
| AssistantRun.CollectComplete | ross-1-assistant-api.py:70-74 | every image and output-file identifier of an assistant message is collected, and so is attempted |
| AssistantRun.DownloadAll | ross-1-assistant-api.py:76-81 | whatever the set's iteration order and whatever earlier attempts returned, each distinct identifier is attempted exactly once and each outcome is that of downloading it |
| AssistantRun.RunAssistant | ross-1-assistant-api.py:63-81 | nothing is processed or downloaded unless the status is "completed"; otherwise only assistant messages are shown and harvested, and each distinct harvested identifier is attempted once |

## Left out

- Text extraction (`read_text_auto`: PDF, DOCX, HTML, encoding detection) is foreign-library work; `read` is a parameter giving the extracted text of a path.
- Whether a path exists is a parameter `present`. The configured path begins with `~`, which `Path` does not expand; that is a matter of the file system, not of the model.
- Embedding, L2 normalisation and the flat inner-product index are floating-point numerics and foreign calls; the search result is a parameter `hits`, an arbitrary ranked index list.
- Retrieval.Retrieve: requires every hit other than `-1` to be a valid chunk index. Python would also accept other negative indices, counting from the end; the index never returns them.
- Prompt construction, the answer call, all printed banners and the interactive question loop are I/O. What is shown for a content part is its variant and payload, not the banner text (such as `t.upper()`).
- Thread and message creation, polling the run to its final status and `messages.list(limit=3)` are network calls; the final status and the listed messages are inputs.
- The Files API calls and the local write are the three outcomes of a `FilesApi` record. Joining the name with the download directory and creating that directory are not modelled. Every exception they might raise becomes the `Failed` outcome.
- Chunking.ChunkTextLoop: requires `0 <= overlap < size`, as does Chunking.ChunkText. The script does not check this. With `overlap >= size` the loop never ends once the text is non-empty and longer than `size`, a negative overlap skips text, and `size < 0` makes the first slice `text[0:size]`, counting from the end. The precondition also excludes texts of at most `size` characters with `overlap >= size`, which the script handles in one window; the only call uses size 1200 and overlap 150.
- Python set iteration order is not modelled: each turn of the download loop picks any identifier not yet tried.
- AssistantRun.DownloadFile: the `save` outcome is stateless, so name collisions are not modelled. Two identifiers whose remote file names coincide are both reported saved, but the second write replaces the first file, and which one survives depends on the set iteration order.
- Retrieval.AssembleCorpus: `read` is total, so extraction errors are not modelled. `read_text_auto` can raise, for example on an existing path that is a directory or on a corrupt PDF, which aborts start-up before the empty-corpus check; `Startup` has no such outcome.
