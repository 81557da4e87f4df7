# PII masking script: prompt, extraction and input selection

The script `4_run_model_without_cuda/run_model_without_cuda.py` asks a local
language model (loaded through `llama_cpp`) to replace personal data in a
Japanese text with placeholders. Its own logic is small and deterministic:

- **Prompt construction** (`generate_masked_text`): a fixed Japanese
  instruction text, then the `### before_mask:` heading, the caller's text
  verbatim, a blank line and the `### after_mask:` heading for the model to
  continue after.
- **Output extraction**: if the completion contains `### after_mask:`, the
  result is `split("### after_mask:")[1].strip()`; otherwise it is the
  completion stripped.
- **Input selection** (`main`): a non-empty `--text`, else `--file` (a
  missing file ends the run with a message quoting the path), else piped
  standard input (a terminal ends the run with a usage message).

The model is a parameter `llm: string -> string` from prompt to completion,
so `generate_masked_text(s)` is `Extract(llm(Prompt(s)))` (`Masking.MaskText`).

Files:

- `text.dfy`, module `Text`: the Python string builtins the script uses.
  `str.isspace` is `IsWhitespace`, `str.strip()` is `Strip`, `sep in s` is
  `Contains` and `str.split(sep)` is `Split`. `FindFrom` is the leftmost
  search for a separator that both `in` and `split` perform; the script does
  not call `str.find` itself. `Join` (`sep.join`) is used only to state that
  `split` loses nothing.
- `masking.dfy`, module `Masking`: the prompt template, the extraction and
  their composition with the model.
- `cli.dfy`, module `Cli`: the `--text`/`--file`/stdin choice and the way a
  run ends. The file system and the terminal are given as a value `Env`.

`Strip` is specified by `StrippedAt(s, i, j, r)`: `r == s[i..j]`, everything
outside `[i, j)` is whitespace, and `r` starts and ends with non-whitespace.
`StripUnique` shows this fixes `r`, so `StrippedAt` serves as an independent
definition of `strip`.

The extraction is easily summarised as returning "everything after the
marker", but the code takes `split(marker)[1]`, which stops at a second
occurrence of the marker. The model follows the code, and
`Masking.ExtractStopsAtSecondMarker` proves that text after a second marker
is dropped.

## Model

| member | source | states |
|---|---|---|
| Text.IsWhitespace | 4_run_model_without_cuda/run_model_without_cuda.py:72-73 | the set of characters `strip()` removes, as Python 3's `str.isspace` defines it; it holds the ASCII blanks and the ideographic space U+3000 and none of the headings' non-blank characters (`#`, `:`, `_`, `a`-`z`) |
| Text.Strip | 4_run_model_without_cuda/run_model_without_cuda.py:72-73 | `strip()` returns a slice of its argument, with only whitespace cut off before and after and no whitespace at the slice's own ends |
| Text.StripUnique | 4_run_model_without_cuda/run_model_without_cuda.py:72-73 | any slice that cuts maximal whitespace runs off both ends is exactly `strip()`'s result |
| Text.StripTrimmed | 4_run_model_without_cuda/run_model_without_cuda.py:72-73 | `strip()` leaves no whitespace at either end |
| Text.StripOfTrimmed | 4_run_model_without_cuda/run_model_without_cuda.py:72-73 | a string with no whitespace at its ends is its own `strip()`, so `strip()` is idempotent |
| Text.StripNotContains | 4_run_model_without_cuda/run_model_without_cuda.py:72-73 | stripping a string that does not contain a separator cannot create an occurrence of it |
| Text.SliceNotContains | 4_run_model_without_cuda/run_model_without_cuda.py:71 | no slice of a string contains a separator that the string itself does not contain |
| Text.Contains | 4_run_model_without_cuda/run_model_without_cuda.py:71 | `sep in s` holds exactly when `sep` occurs at some index of `s`, which is exactly when the leftmost search from index 0 finds it |
| Text.FindFrom | 4_run_model_without_cuda/run_model_without_cuda.py:71-72 | the index returned is an occurrence at or after the start, and no earlier occurrence in that range exists; `None` means no occurrence there |
| Text.Split | 4_run_model_without_cuda/run_model_without_cuda.py:72 | `split(sep)` for a non-empty `sep`: the pieces between the occurrences found left to right without overlap, each search starting after the previous occurrence; there is always at least one piece |
| Text.SplitJoin | 4_run_model_without_cuda/run_model_without_cuda.py:72 | joining the pieces of `split(sep)` with `sep` gives back the original string |
| Text.SplitPiecesFree | 4_run_model_without_cuda/run_model_without_cuda.py:72 | no piece of `split(sep)` contains `sep` |
| Text.SplitHasSecond | 4_run_model_without_cuda/run_model_without_cuda.py:71-72 | `split(sep)` has a piece at index 1 exactly when `sep in s`, so the guard makes `[1]` safe |
| Text.SplitFirst | 4_run_model_without_cuda/run_model_without_cuda.py:72 | the first piece runs up to the first occurrence of `sep`, or to the end when there is none |
| Text.SplitSecond | 4_run_model_without_cuda/run_model_without_cuda.py:72 | given the first occurrence `i` and the next one `e` (or the end), piece 0 is `s[..i]` and piece 1 is `s[i+|sep|..e]` |
| Text.SplitSecondFound | 4_run_model_without_cuda/run_model_without_cuda.py:71-72 | when `sep` occurs, piece 1 runs from the end of the first occurrence to the next occurrence found by the search, or to the end |
| Masking.Prompt | 4_run_model_without_cuda/run_model_without_cuda.py:37-59 | the prompt is `PREFIX + input + SUFFIX`: the instructions and the `### before_mask:` heading line, the caller's text, then a blank line and the `### after_mask:` heading line; its length is the sum of the three |
| Masking.PromptLayout | 4_run_model_without_cuda/run_model_without_cuda.py:37-59 | the prompt is the fixed prefix, then the caller's text unchanged, then the fixed suffix; its length is the sum of the three |
| Masking.PromptHeadings | 4_run_model_without_cuda/run_model_without_cuda.py:55-58 | the line just before the caller's text is `### before_mask:`, and the prompt ends with the line `### after_mask:` |
| Masking.PromptInput | 4_run_model_without_cuda/run_model_without_cuda.py:37-59 | reading the caller's text back out of a string of the prompt's shape gives a text whose length fits between the fixed parts |
| Masking.PromptRoundTrip | 4_run_model_without_cuda/run_model_without_cuda.py:37-59 | the caller's text is recovered from its prompt |
| Masking.PromptInputSound | 4_run_model_without_cuda/run_model_without_cuda.py:37-59 | a text recovered from a string rebuilds exactly that string as a prompt |
| Masking.PromptInjective | 4_run_model_without_cuda/run_model_without_cuda.py:55-58 | equal prompts come from equal texts |
| Masking.SectionEnd | 4_run_model_without_cuda/run_model_without_cuda.py:72 | the end of the text after the first marker is the next occurrence of the marker, or the end of the completion |
| Masking.MarkerSection | 4_run_model_without_cuda/run_model_without_cuda.py:71-72 | when the marker occurs, `split(marker)[1]` is the text from the end of its first occurrence to its next occurrence or the end |
| Masking.Extract | 4_run_model_without_cuda/run_model_without_cuda.py:70-73 | the extracted text is a slice of the completion, has no whitespace at either end and never contains `### after_mask:` |
| Masking.ExtractWithoutMarker | 4_run_model_without_cuda/run_model_without_cuda.py:71-73 | without the marker, the result is the completion with its maximal leading and trailing whitespace removed |
| Masking.ExtractWithMarker | 4_run_model_without_cuda/run_model_without_cuda.py:71-72 | with the marker, the result is the text between its first occurrence and the next one (or the end), with maximal whitespace runs removed at both ends |
| Masking.ExtractIdempotent | 4_run_model_without_cuda/run_model_without_cuda.py:70-73 | extracting again from an extracted text changes nothing |
| Masking.ExtractStopsAtSecondMarker | 4_run_model_without_cuda/run_model_without_cuda.py:72 | for `marker + a + marker + b`, where `a` has no marker and no whitespace at its ends, the result is `a`: whatever follows a second marker is dropped |
| Masking.MaskText | 4_run_model_without_cuda/run_model_without_cuda.py:35-73 | for any model, the masked text is a slice of the model's completion of the prompt, has no whitespace at its ends and does not contain `### after_mask:` |
| Cli.Truthy | 4_run_model_without_cuda/run_model_without_cuda.py:85 | the truthiness of `args.text`: `None` and the empty string are its only falsy values |
| Cli.SelectInput | 4_run_model_without_cuda/run_model_without_cuda.py:85-94 | the text is `--text` exactly when it is non-empty; the file's contents exactly when `--text` is falsy and `--file` names a readable path; stdin exactly when neither flag is usable and stdin is not a terminal; the file-not-found, read-failure and no-input errors each under exactly their conditions, the file errors carrying the path |
| Cli.TextWins | 4_run_model_without_cuda/run_model_without_cuda.py:85-86 | a non-empty `--text` is used whatever `--file`, the file system and stdin are |
| Cli.FalsyTextFallsThrough | 4_run_model_without_cuda/run_model_without_cuda.py:85-87 | an empty `--text` behaves as if it were absent |
| Cli.FileIgnoresStdin | 4_run_model_without_cuda/run_model_without_cuda.py:87-90 | once `--file` is taken, stdin and whether it is a terminal do not matter |
| Cli.TerminalNotRead | 4_run_model_without_cuda/run_model_without_cuda.py:91-94 | with no usable flag and a terminal, the result is the no-input error whatever stdin would hold |
| Cli.Run | 4_run_model_without_cuda/run_model_without_cuda.py:85-97 | a run prints exactly when an input was selected, and prints a trimmed, marker-free line; `sys.exit` ends it with status 1; an exception only comes from checking or reading the `--file` path |
| Cli.RunPrintsMaskedInput | 4_run_model_without_cuda/run_model_without_cuda.py:96-97 | what is printed is `generate_masked_text` of the selected text, followed by a newline |
| Cli.MissingFileQuotesPath | 4_run_model_without_cuda/run_model_without_cuda.py:88-89 | a `--file` that does not exist ends the run with status 1 and a message that contains the path |
| Cli.NoInputOnTerminal | 4_run_model_without_cuda/run_model_without_cuda.py:92-93 | with no usable flag and a terminal, the run ends with status 1 and the usage message, and the model is not consulted |

## Left out

- Loading the model at import time (lines 19-29) is not modelled. This includes the two progress lines printed to standard output before `main` runs. It is a side effect of a foreign library.
- The inference call (lines 61-68) is not modelled: the model is an arbitrary function `llm`. Sampling parameters, the token budget and the `### before_mask:` stop sequence act inside `llama_cpp`, so the model makes no claim about what the completion contains, and none about masking quality.
- The response object `out["choices"][0]["text"]` (line 70) is not modelled. `Extract` takes the completion string directly.
- Argument parsing is not modelled. `Args` holds each flag's value, or `None` when the flag is absent. The rendering of `--file` through `pathlib.Path` is also out: it collapses repeated and trailing slashes and turns an empty path into `.`. `Args.file` is the rendered path.
- `Path.exists()` and `read_text(encoding="utf-8")` are the map `Env.files`. A path missing from the map is one `exists()` reports as absent. A path in the map is one it does not report as absent, and `Unreadable` stands for every exception it or the read can raise: a directory, a permission error, bad UTF-8. Newline translation in text mode is taken as already applied to `contents`.
- `Path.exists()` raising is not told apart from a failing read. On Python 3.8 to 3.12, `exists()` re-raises stat errors other than "no such file", "not a directory", "bad file descriptor" and "too many levels of symbolic links" (ELOOP). An example is a `PermissionError` for a path under a directory the user cannot enter. Such a path is an `Unreadable` entry, so the run ends at line 88 with `Raised(ReadFailed(path))`.
- `sys.stdin.isatty()` and `sys.stdin.read()` are the fields `stdinIsTty` and `stdin`. Decoding errors on standard input are not modelled.
- `sys.exit(message)` is `Exited(1, message)`. Python writes the message and a newline to standard error.
- Exceptions raised by the model call propagate in the script and are not modelled.
- `warnings.filterwarnings("ignore")` (line 14) has no effect on the modelled logic.
- Text.IsWhitespace: lists the characters Python 3's `str.isspace` accepts. They are written out from Python's documented behaviour, not checked against a Unicode database. No proof depends on the exact set.
