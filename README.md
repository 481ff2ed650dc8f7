# vault-lambda: a Dafny model of the request path of `lambda_function.py`

The repository is one AWS Lambda handler. On each call it downloads the
Vault binary from S3 and renders `vault.hcl` from a template. It then starts
Vault, waits for it to listen on `localhost:8200`, and proxies the API
Gateway event to it over HTTP. This project models the deterministic logic
inside that handler and proves properties of it:

- `remove_prefix`, which drops the API Gateway stage (the first
  `/`-delimited segment) from the event path (module `Paths`);
- `replace`, which rewrites the configuration file line by line, and the
  two passes of it for `BUCKET_NAME` and `KEY_ID` (module `Config`);
- the method dispatch and the shaping of the response envelope in
  `lambda_handler` (module `Handler`).

The Python 2 builtins these rely on are modelled in `Text`:

- `str.split`, `str.count` and `str.replace`, written as left-to-right scans;
- iteration over the lines of a text file.

`Wrappers` holds `Option` and `Result`. Python exceptions become `Failure`
values. They are named after the step that raises them.

The model follows the code as written, including where it departs from what
a design for such a proxy would ask for:

- A path holding only the stage (`/stage`) yields the empty path. It is not rejected.
- A missing placeholder value makes rendering fail only as Python does. An
  unset environment variable reaches `str.replace` as `None`, which raises
  `TypeError` on the first line, so an empty file is rewritten without error.
  Each `replace` call re-reads the file, so an unset `KEY_ID` goes unnoticed
  when the `BUCKET_NAME` pass has left the file empty.
- `BUCKET_NAME` is used by the S3 download in `_init_bin` before any
  rendering. A missing or empty bucket name fails there, so in the handler the
  render step can only fail on `KEY_ID`.
- The stripped path goes to `urljoin` unchecked. A path with `//` after the
  stage sends the request to another host (see "## Findings").
- An unsupported method raises `NameError` at `print(fail)`. It is not a designed error.
- Provisioning is not idempotent, and the readiness wait has no bound.
  Neither is modelled (see below).
- The JSON body of a response is whatever the re-serialisation gives back.

## Model

| member | source | states |
|---|---|---|
| `Text.Split` | lambda_function.py:49 | `str.split` yields at least one field and at most one more field than the string has characters |
| `Text.SplitHead` | lambda_function.py:49 | the first field is a prefix of the string. It is the whole string when it is the only field; otherwise the separator follows it |
| `Text.SplitHeadFree` | lambda_function.py:49 | the first field contains no occurrence of the separator |
| `Text.SplitSecond` | lambda_function.py:49 | with two fields or more, the first field, the separator and the second field are a prefix of the string, so `len(split[1]) + 1` never exceeds its length |
| `Text.SplitJoin` | lambda_function.py:49 | joining the fields with the separator gives the string back |
| `Text.SplitCount` | lambda_function.py:49 | there is one more field than there are non-overlapping occurrences of the separator |
| `Text.SplitSingleIffAbsent` | lambda_function.py:49 | there is a single field exactly when the separator does not occur, so `[1]` raises exactly then |
| `Text.Count` | lambda_function.py:28 | the non-overlapping occurrences of a non-empty pattern, laid end to end, fit in the string |
| `Text.ReplaceAll` | lambda_function.py:28 | deleting a non-empty pattern never lengthens a string, and a substitute as long as the pattern keeps its length |
| `Text.ReplaceIsJoinOfSplit` | lambda_function.py:28 | for a non-empty pattern, `s.replace(p, t)` equals `t.join(s.split(p))`. Every occurrence is replaced, and the pieces between occurrences are untouched |
| `Text.ReplaceLength` | lambda_function.py:28 | the replaced string's length is `|s| + count(s, p) * (|t| - |p|)`; this includes the empty pattern, whose count is `|s| + 1` |
| `Text.ReplaceSelf` | lambda_function.py:28 | replacing a pattern by itself is the identity |
| `Text.ReplaceAbsent` | lambda_function.py:28 | the count is zero exactly when the pattern does not occur, and such a string is copied unchanged |
| `Text.ReplaceAppend` | lambda_function.py:28 | replacement distributes over a concatenation whose left part ends in a character outside the pattern |
| `Text.ReplaceAppendLast` | lambda_function.py:28 | a final character outside the pattern stays the final character after replacement |
| `Text.Lines` | lambda_function.py:26-27 | iterating over a file yields no line exactly when the file is empty, and never more lines than it has characters |
| `Text.LinesConcat` | lambda_function.py:26-27 | concatenating the lines that iteration yields gives the file's text back |
| `Text.LinesWellFormed` | lambda_function.py:26-27 | every line iteration yields is non-empty and holds a newline only at its end, and every line except the last ends in one |
| `Text.ConcatLines` | lambda_function.py:26-27 | splitting the text of a well-formed line sequence gives back the same lines |
| `Text.LinesPrepend` | lambda_function.py:26-27 | a newline-terminated line in front of a text becomes the first line of that text |
| `Paths.RemovePrefix` | lambda_function.py:48-51 | fails (IndexError) exactly when the path has no `/`; otherwise returns a proper suffix of the path with no character altered |
| `Paths.RemovePrefixRooted` | lambda_function.py:48-51 | on a path starting with `/`, the result `r` satisfies `path == "/" + segment + r`, where `segment` has no `/` and `r` is empty or starts with `/` |
| `Paths.RemovePrefixOfStage` | lambda_function.py:48-51 | `"/" + p + rest` becomes exactly `rest` when `p` has no `/` and `rest` is empty or starts with `/` |
| `Paths.RemovePrefixExample` | lambda_function.py:48-51 | `/stage/v1/sys/status` becomes `/v1/sys/status` |
| `Paths.RemovePrefixStageOnly` | lambda_function.py:49-51 | `/stage` alone becomes the empty path and does not fail |
| `Config.Rewrite` | lambda_function.py:22-32 | the file after one `replace`: it fails (TypeError, naming the pattern) exactly when the substitute is unset and the file is not empty. An empty file stays empty. For a non-empty pattern without a newline, the new text is `text.replace(pattern, subst)` of the whole text |
| `Config.Replace` | lambda_function.py:22-32 | the loop reads the file's lines and writes each with the pattern replaced, in order. It fails (TypeError) exactly when the substitute is unset and the file is not empty |
| `Config.RewriteAgrees` | lambda_function.py:22-32 | what `Replace` promises determines its result uniquely: it is `Rewrite` |
| `Config.ReplacedLinesShape` | lambda_function.py:27-28 | line count and order are kept. Each line's length follows the occurrence count. A line without the pattern is copied unchanged. Replacing the pattern by itself changes nothing |
| `Config.ReplaceLinewise` | lambda_function.py:26-28 | for a pattern without a newline, rewriting newline-terminated lines one by one equals rewriting their concatenation |
| `Config.ReplacedLinesTerminated` | lambda_function.py:26-28 | rewriting keeps every line but the last newline-terminated |
| `Config.ReplaceFile` | lambda_function.py:22-32 | for a non-empty pattern without a newline, the rewritten file's text is `text.replace(pattern, subst)` of the whole original text |
| `Config.Rendered` | lambda_function.py:63-65 | rendering fails exactly when `BUCKET_NAME` is unset and the template is not empty (reported first), or when `KEY_ID` is unset and the file the first pass wrote is not empty. With `KEY_ID` unset, success means an empty file. With both set, the text is `template.replace('BUCKET_NAME', b).replace('KEY_ID', k)` |
| `Config.Render` | lambda_function.py:63-65 | the two `replace` calls in order, the second reading the file the first wrote, give exactly `Rendered` |
| `Config.RenderRereadsFile` | lambda_function.py:64-65 | the template `BUCKET_NAME` with an empty bucket name renders to an empty file even though `KEY_ID` is unset |
| `Handler.Forward` | lambda_function.py:76-88 | fails on a path without `/` (checked first) and on any method other than GET, PUT and POST. Otherwise the target is the stripped path and the headers are passed unchanged. GET sends no body; PUT and POST send the event body verbatim |
| `Handler.Respond` | lambda_function.py:89-103 | the status code is always the upstream's and `isBase64Encoded` is always `'false'`. A body is present exactly when the upstream text is non-empty, and it is the re-serialised JSON. Non-JSON text fails (ValueError) |
| `Handler.Handle` | lambda_function.py:53-103 | stops at the first failing step, in the order provisioning, render, path, method, JSON, and reports that step's error. A missing or empty bucket name fails at provisioning, so a render failure always names `KEY_ID`. A successful invocation carries the rendered file, the forwarded request and the shaped envelope |
| `Handler.LambdaHandler` | lambda_function.py:53-103 | running provisioning, the render method and the dispatch in order gives exactly `Handle` |
| `Handler.ForwardRootedPath` | lambda_function.py:76-78 | for a `/`-rooted event path and a supported method, the forwarded reference is the path after the stage segment: empty or starting with `/` |
| `Handler.ForwardNetworkPath` | lambda_function.py:76-78 | the event path `/stage//host/rest` is forwarded as the network-path reference `//host/rest` |
| `Handler.LocalReference` | lambda_function.py:76-78 | the corrected reference is never a network-path reference. It is a suffix of the forwarded one, stays rooted when that is rooted, and equals it whenever it already was not a network-path reference |
| `Handler.LocalReferenceRooted` | lambda_function.py:76-78 | with the correction, a `/`-rooted event path always yields an empty or single-slash path reference |

## Left out

- `Handler.Handle`: `_init_bin` (lambda_function.py:35-46) is modelled only by
  its outcome. The download fails for a missing or empty bucket name; for a
  named bucket, whether S3 delivers the object is an input. The directory
  creation, the download itself and the `chmod` are filesystem and network
  I/O, run on every call and not idempotent.
- `shutil.copy` of the template (lambda_function.py:63). It is filesystem I/O;
  the template's lines are an input.
- The temporary file, `remove` and `move` in `replace` (lambda_function.py:24-32).
  These are filesystem I/O. Only the line transform is modelled, and on failure
  the model returns no lines. In the source, the original file is untouched
  and a partly written temporary file is left behind.
- `subprocess.Popen` (lambda_function.py:66). It is process spawning.
- The readiness loop (lambda_function.py:68-75). It is network polling with
  `time.sleep` and has no bound in the source, so nothing about it is modelled.
- The `requests` calls (lambda_function.py:70, 80-86). They are network I/O. The
  upstream answer is an input: a status code and a text, independent of the
  request sent.
- `request.json()` and `json.dumps` (lambda_function.py:91, 95). They are library
  calls, modelled as one opaque function from text to an optional text.
- `urlparse.urljoin` (lambda_function.py:78). It is library URL resolution
  (section 5.2 of RFC 3986). The request records the reference handed to it.
  `Handler.ForwardRootedPath` shows that this reference is empty or starts with
  `/` whenever the event path starts with `/`; `Handler.ForwardNetworkPath`
  shows that it can start with `//`.
- `time.clock` and every `print` (other than `print(fail)`, whose NameError is modelled).
- Missing keys in the event dictionary (KeyError). The event is a record with
  all four fields, and `body` is `None` for a JSON null.
- Python 2 byte strings versus unicode: strings are sequences of characters.

## Findings

| source | as written | input that shows it | evidently intended | confidence | as-written member | corrected member |
|---|---|---|---|---|---|---|
| lambda_function.py:76-78 | the path after the stage goes to `urljoin` unchecked; one that starts with `//` is a network-path reference, which `urljoin` resolves to another host, and the request goes there with the caller's headers | event path `/stage//evil.example/x`, forwarded as `//evil.example/x` | the request stays on `localhost:8200`: the reference is empty or a single-slash path | not executed; `urljoin`'s resolution (section 5.2 of RFC 3986) is not modelled | `Handler.ForwardNetworkPath` | `Handler.LocalReference` |

`Handler.Handle` keeps the code's behaviour. `Handler.LocalReferenceRooted`
proves the corrected reference local for every rooted event path.
