# cogito-lab chat client, modelled in Dafny

The modelled program is a terminal chat client, `src/main.rs`. It reads lines
from standard input. It trims each line. It stops on `quit` or `exit` in any
letter case and skips a line that is empty after trimming. Any other line goes
to the Messages API as a single-message request. Each reply is shown between
two separator lines; each failure is shown as `Error: ` followed by the error
text, which may itself span several lines. The file
also has a helper, `mask_key`, that is never called and shortens an API key for
display.

The Dafny project has five modules:

- `Wrappers` (`wrappers.dfy`): `Option` and `Result`.
- `Text` (`text.dfy`): `str::trim` over Unicode's White_Space set, and
  `str::to_lowercase` restricted to ASCII letters.
- `Exchange` (`exchange.dfy`): the request record built by `send_to_claude`,
  the response records, and how the returned text or error is chosen. The
  HTTP call is an input, `HttpOutcome`. It is either a failed send, or a
  status code with the body text and what the body decodes to.
- `Chat` (`chat.dfy`): the decision for each line (`Classify`), the messages a
  whole input sends (`Sent`, a function over the decided lines), the main loop
  as a method (`ChatLoop`) proved against those functions, and what is printed
  for each result (`Display`, `Screen`).
- `Mask` (`mask.dfy`): `mask_key` over the UTF-8 bytes of the key. Rust
  measures and slices a `String` by bytes, and a cut inside a multi-byte
  character panics. The model returns `None` for that panic.

How the program's inputs are modelled:

- The lines typed by the user are a finite sequence, one `read_line` result
  per element, newline included.
- The network is a parameter `server`. `server(k, request)` is what the HTTP
  layer produced for the k-th request.
- The API key is read from the environment and only used in the HTTP headers,
  so it does not appear in the chat model.

## Model

| member | source | states |
|---|---|---|
| `Text.IsWhitespace` | src/main.rs:117 | no contract; the set of characters `trim` strips, used by `Text.TrimSlice` and `Text.TrimEmptyIff` |
| `Text.TrimStart` | src/main.rs:117 | no contract; its properties are in `Text.TrimStartSuffix` |
| `Text.TrimEnd` | src/main.rs:117 | no contract; its properties are in `Text.TrimEndPrefix` |
| `Text.Trim` | src/main.rs:117 | no contract; its properties are in `Text.TrimSlice`, `Text.TrimEmptyIff` and `Text.TrimIdempotent` |
| `Text.TrimStartSuffix` | src/main.rs:117 | the leading trim keeps a suffix of the line; everything it drops is whitespace; what it keeps does not start with whitespace |
| `Text.TrimEndPrefix` | src/main.rs:117 | the trailing trim keeps a prefix; everything it drops is whitespace; what it keeps does not end with whitespace |
| `Text.TrimSlice` | src/main.rs:117 | the trimmed line is a contiguous slice of the line, whitespace on both sides of it, and it neither starts nor ends with whitespace |
| `Text.TrimEmptyIff` | src/main.rs:126 | a line is empty after trimming exactly when every character of it is whitespace |
| `Text.TrimIdempotent` | src/main.rs:117 | trimming a trimmed line changes nothing |
| `Text.ToLower` | src/main.rs:120 | no contract; its property is in `Text.ToLowerEqualsIff` |
| `Text.ToLowerEqualsIff` | src/main.rs:120 | comparing the lower-cased text with a lower-case word is a case-insensitive comparison with that word |
| `Chat.IsQuitCommand` | src/main.rs:120 | no contract; its properties are in `Chat.QuitCommandIff` |
| `Chat.Classify` | src/main.rs:117-128 | no contract; its properties are in `Chat.ClassifyIff` |
| `Chat.QuitCommandIff` | src/main.rs:120 | the quit test holds exactly when the trimmed text equals `quit` or `exit` ignoring letter case |
| `Chat.ClassifyIff` | src/main.rs:117-128 | a line quits exactly on a keyword; it is skipped exactly when it is all whitespace; otherwise it sends its trimmed text, which is neither empty nor a keyword |
| `Chat.FirstQuit` | src/main.rs:120-123 | the position of the `break` is at most the number of lines; that it is the first quit line is in `Chat.FirstQuitIsFirst` |
| `Chat.FirstQuitIsFirst` | src/main.rs:120-123 | `FirstQuit` is the position of the first quit line: no earlier line quits and the line at it does, or there is none |
| `Chat.LineStep` | src/main.rs:115-128 | reading a line before the first quit: a quit line is the first quit; any other line moves on, sending its trimmed text unless that is empty |
| `Chat.Sent` | src/main.rs:110-135 | no contract; its properties are in `Chat.SentAreTrimmedLinesInOrder`, `Chat.QuitIgnoresRest` and `Chat.SkipIsInvisible` |
| `Chat.SendIndices` | src/main.rs:110-135 | the positions of the sending lines before a bound, strictly increasing, every sending line included |
| `Chat.SentUpToAtIndices` | src/main.rs:110-135 | the k-th message sent is the message of the k-th sending line |
| `Chat.SentAreTrimmedLinesInOrder` | src/main.rs:117-135 | each sent message is a trimmed input line from before the first quit line; messages are in input order; every non-blank line before the quit is sent; no message is empty or a keyword |
| `Chat.QuitIgnoresRest` | src/main.rs:120-123 | with no quit line before it, a quit line is the first quit; nothing after it is sent, whatever follows it |
| `Chat.SkipIsInvisible` | src/main.rs:126-128 | removing an all-whitespace line from the input leaves the sent messages unchanged |
| `Chat.ChatLoop` | src/main.rs:110-145 | the loop sends exactly `Sent(lines)`; the k-th result is the reply selected for the k-th request; the screen shows each result's block in turn; it reports a quit exactly when some line quits; it reads up to and including the first quit line, or all lines |
| `Chat.Display` | src/main.rs:136-143 | no contract; its properties are in `Chat.DisplayFraming`, `Chat.DisplayError` and `Chat.DisplayInjective` |
| `Chat.Separator` | src/main.rs:90-92 | no contract; its shape, 60 dashes, is in `Chat.DisplayFraming` |
| `Chat.DisplayFraming` | src/main.rs:87-92 | a reply is printed between two identical separator lines of 60 dashes |
| `Chat.DisplayError` | src/main.rs:140-142 | an error is printed as one block element: `Error: ` followed by the error text |
| `Chat.ErrorLineIsNotSeparator` | src/main.rs:142 | the element printed for an error is never the separator element |
| `Chat.DisplayInjective` | src/main.rs:136-143 | different results give different blocks, each reply or error text being one element of its block |
| `Chat.Screen` | src/main.rs:134-144 | no contract; its properties are in `Chat.ScreenDeterminesReplies` and `Chat.ChatLoop` |
| `Chat.ScreenDeterminesReplies` | src/main.rs:134-144 | the sequence of blocks in the model's `Screen` determines the sequence of results: a reply block ends in the separator element and an error element never is one |
| `Chat.RateLimitedShown` | src/main.rs:67-70 | a non-success status with body `rate limited` prints exactly `Error: API Error: rate limited` |
| `Chat.HelloShownFramed` | src/main.rs:62-63 | a successful reply whose first block says `Hello!` prints `Hello!` between two separators |
| `Chat.EmptyContentShowsPlaceholder` | src/main.rs:64-66 | a successful reply without content blocks prints the placeholder `No response content` |
| `Chat.SessionExample` | src/main.rs:115-128 | with input `  hi `, a tab line, `Exit`, `later`, only `hi` is sent and the third line ends the loop |
| `Chat.ReadLine` | src/main.rs:115-116 | no contract; its properties are in `Chat.SourceLoopNeverEndsAtEof` |
| `Chat.SourceLoop` | src/main.rs:110-128 | no contract; its properties are in `Chat.SourceLoopNeverEndsAtEof` |
| `Chat.SourceLoopNeverEndsAtEof` | src/main.rs:115-128 | the loop as written, with no quit line in the input, never reaches `break`, for any number of iterations |
| `Exchange.BuildRequest` | src/main.rs:42-49 | the request names model `claude-3-haiku-20240307` and 500 tokens, and carries exactly one message, with role `user` and the user text as content |
| `Exchange.BuildRequestOnto` | src/main.rs:42-49 | every request of that shape is the one built from its own text |
| `Exchange.BuildRequestInjective` | src/main.rs:45-48 | different user texts give different requests |
| `Exchange.IsSuccess` | src/main.rs:60 | no contract; its properties are in `Exchange.ReplyOfCases` |
| `Exchange.ReplyOf` | src/main.rs:60-70 | no contract; its properties are in `Exchange.ReplyOfCases` |
| `Exchange.ReplyOfCases` | src/main.rs:60-70 | the result is `Ok` exactly when the status is 2xx and the body decoded. It is then the first block's text, or `No response content` if there is no block. A decoding or transport failure passes its error on. A non-success status gives `API Error: ` followed by the body |
| `Exchange.ReplyReadsOnlyFirstText` | src/main.rs:62-63 | a successful result depends only on the first block's text, not on its type tag, later blocks, the model, the role or the status |
| `Exchange.ErrorStatusIgnoresDecoding` | src/main.rs:67-69 | on a non-success status the result is the same whatever the body decodes to |
| `Exchange.SendToClaude` | src/main.rs:37-70 | no contract; its properties are in `Exchange.BuildRequest`, `Exchange.ReplyOfCases` and `Chat.ChatLoop` |
| `Mask.IsCharBoundary` | src/main.rs:152 | no contract; its properties are in `Mask.MaskKey` and `Mask.AsciiKeyNeverPanics` |
| `Mask.MaskKey` | src/main.rs:150-158 | a key of at most 10 bytes gives `too_short`. A longer key panics exactly when byte 7 or byte len-4 is not a character boundary. Otherwise the result is 14 bytes: the first 7 key bytes, `...`, then the last 4 |
| `Mask.MaskedPartsDisjoint` | src/main.rs:151-152 | on a key longer than 10 bytes both cuts are in range, and the suffix starts at or after byte 7 |
| `Mask.AsciiKeyNeverPanics` | src/main.rs:152 | a key made only of ASCII bytes never panics |
| `Mask.MaskHidesMiddle` | src/main.rs:152 | two long keys with the same first 7 and last 4 bytes mask to the same text |
| `Mask.ElevenByteKeyRecoverable` | src/main.rs:151-152 | an 11-byte key can be read back whole from its masked form |
| `Mask.NonAsciiKeyPanics` | src/main.rs:152 | a 12-byte key whose 8th byte is inside `é` makes the slice panic |

## Left out

- The HTTP POST, its URL and headers, and the `reqwest` client (src/main.rs:51-58, 107) are network I/O. Their outcome is an input to the model.
- JSON encoding of the request and decoding of the reply (`serde`, src/main.rs:10-35, 56, 61) are library code. The records are plain datatypes, and what the body decodes to is part of the input.
- Exchange.ReplyOf: the body read on a non-success status can fail (the `?` at src/main.rs:68). That failure is not modelled; the body text is always there. This carries over to Exchange.SendToClaude and Exchange.ReplyOfCases.
- Chat.Screen: a sequence of blocks, one element per separator, reply text or error text. It is not the byte stream on standard output. There a text may span several lines, and the prompts, emojis and `\r` that the model drops are interleaved. So `Chat.DisplayInjective` and `Chat.ScreenDeterminesReplies` hold for the blocks only. For example, one error whose body contains a newline, a prompt and a second `Error:` line prints the same bytes as two errors.
- `termimad` rendering and the colour settings of `setup_markdown_skin` (src/main.rs:73-85, 91) are a terminal UI library. In the model the reply text stands for its rendering.
- Prompts, emojis, the welcome and farewell lines, the "thinking" indicator, `\r`, stdout flushing and the blank line before the first separator (src/main.rs:100-101, 112-113, 121, 131-132, 137, 141) are terminal output with no effect on the decisions.
- Loading the environment, `dotenv`, and the panic on a missing `CLAUDE_API_KEY` (src/main.rs:98, 104) happen at start-up and are I/O.
- I/O errors of `read_line` and `flush` (the `?` at src/main.rs:113, 116, 132) end `main` with an error. They are not modelled: every line of the input is read successfully.
- Text.ToLower: lower-cases ASCII letters only, unlike Rust's full Unicode `to_lowercase`. The two agree for the comparison with `quit`/`exit`: none of the letters q, u, i, t, e, x is the one-character lower case of a non-ASCII character.
- Mask.MaskKey: takes any byte sequence. It does not require the bytes to be valid UTF-8, as a Rust `String` guarantees.
- The `tokio` runtime: only one request is ever in flight, so nothing is concurrent.

## Findings

| source | as written | input that shows it | evidently intended | confidence | as-written member | corrected member |
|---|---|---|---|---|---|---|
| src/main.rs:115-128 | at end of input `read_line` returns `Ok(0)` and leaves the fresh buffer empty; that trims to an empty line, so the loop takes `continue` and reads again, forever, printing the prompt each time | standard input that stays at end of input before any `quit`/`exit` line: a redirected file, `< /dev/null`, or a pipe whose writer has exited (on a terminal, Ctrl-D only ends the current read, so the loop prompts once and waits again) | the loop stops at end of input | high (not executed) | `Chat.SourceLoopNeverEndsAtEof` | `Chat.ChatLoop` |
