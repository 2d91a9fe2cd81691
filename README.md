# Endless podcast demo: a Dafny model

The demo has two speakers, a host and a guest. They talk endlessly about a topic
through a local language-model server. This project models and proves the parts of
that demo that are computation rather than I/O.

- **`LlmClient` (llm_client.dfy):** the read loop of `LLMClient.generate` and
  `LLMClient.generate_quiet`.
  - The streamed response is a sequence of lines.
  - Each line is abstracted as `Blank`, `Malformed` or `Record(response, done)`.
  - The loop collects the `response` fragments and stops after the first record whose
    `done` is true.
  - `generate` strips the concatenation.
  - `generate_quiet` collapses whitespace with `' '.join(s.split())`. It then limits
    the length: the text is cut at `max_length`, dropped back to the last space, and a
    marker is appended.
- **`Podcast` (podcast.dfy):** the loop of `run_conversation`.
  - The speaker is `participants[turn % 2]`.
  - The recent-turns block is `"\n".join(history[-history_limit:])`, or `"(start)"`
    while the history is empty.
  - The prompt is built from an f-string.
  - The turn appends `"name: reply"` to the history and advances the turn counter.
  - The conversation is a class holding the history and the turn counter.
  - The endless loop runs over a finite sequence of response streams, one per turn.
- **`Builtins` (builtins.dfy):** the Python built-ins these rely on, with CPython's
  semantics.
  - `str.isspace`, `str.strip()`, `str.split()`, `sep.join`, `s.rsplit(' ', 1)[0]`.
  - `s[start:]` and `s[:stop]` with negative and out-of-range bounds.

The reading loop is a method, `CollectChunks`. It is proved against the recursive
function `Chunks`. `Generate`, `GenerateQuiet`, `Conversation.TakeTurn` and
`Conversation.Run` are methods proved against the functions `GeneratedText`,
`QuietText`, `After`, `PromptsAfter` and `Replies`. The lemmas state what those
functions guarantee.

Two places where the code's behaviour is easy to misread; the model follows the code:

- `generate_quiet` can return more than `max_length` characters. The marker is
  appended after the cut. When `text[:max_length]` holds no space, the whole cut is
  kept.
- The cut can split a word: with no space inside the limit, the cut falls wherever
  `max_length` lands.

## Model

| member | source | states |
|---|---|---|
| Builtins.TrimStart | llm_client.py:58 | the result is a suffix of the input that is empty or starts with a non-whitespace character |
| Builtins.TrimStartDropsSpace | llm_client.py:58 | everything TrimStart drops is whitespace |
| Builtins.TrimEnd | llm_client.py:58 | the result is a prefix, what it drops is whitespace, and it is empty or ends in a non-whitespace character |
| Builtins.Strip | llm_client.py:58 | `str.strip()` never lengthens its input; the result neither starts nor ends with whitespace |
| Builtins.StripIsSlice | llm_client.py:58 | the stripped text is a contiguous slice of the input with only whitespace on either side |
| Builtins.StripUnpadded | llm_client.py:94 | stripping text with no whitespace at either end returns it unchanged |
| Builtins.JoinWith | llm_client.py:58 | `sep.join(parts)` is empty for no parts and starts with the first part |
| Builtins.SplitWords | llm_client.py:86 | every piece `str.split()` returns is non-empty and free of whitespace |
| Builtins.SplitKeepsText | llm_client.py:86 | the words of `str.split()`, concatenated, are exactly the input's non-whitespace characters in order |
| Builtins.SplitJoin | llm_client.py:86 | splitting words joined by single spaces gives the same words back |
| Builtins.LastSpace | llm_client.py:91 | the index of the last `' '`, or -1 when there is none |
| Builtins.RSplitHead | llm_client.py:91 | `s.rsplit(' ', 1)[0]` is the prefix before the last space, or all of `s` when it holds no space |
| Builtins.SliceFrom | main.py:70 | `s[start:]` is a suffix of `s`; its length follows Python's clamping of negative and large bounds |
| Builtins.SliceTo | llm_client.py:90 | `s[:stop]` is a prefix of `s`; its length follows Python's clamping of negative and large bounds |
| LlmClient.Chunks | llm_client.py:39-54 | the loop collects at most one fragment per line |
| LlmClient.StopIndex | llm_client.py:53-54 | the loop reads no more lines than there are |
| LlmClient.StopIndexStops | llm_client.py:53-54 | every line before the last one read is not a done record, and the loop stops early only right after a done record |
| LlmClient.ChunksUpToDone | llm_client.py:39-54 | the chunks are the fragments, in arrival order, of the lines up to and including the first done record |
| LlmClient.ChunksAppend | llm_client.py:39-54 | before any done record, the chunks of two stretches of lines follow each other |
| LlmClient.ChunksIgnoreAfterDone | llm_client.py:53-54 | lines after the first done record contribute nothing |
| LlmClient.ChunksSkipUnparsed | llm_client.py:40-45 | a blank or unparsable line anywhere adds nothing and does not stop the loop |
| LlmClient.ChunksRecordWithoutResponse | llm_client.py:47-54 | a record without `response` adds nothing, and its `done` still ends the stream |
| LlmClient.ReadOne | llm_client.py:39-54 | reading one line: what it adds and whether the loop stops after it |
| LlmClient.CollectChunks | llm_client.py:39-54 | the loop's chunks list is `Chunks(lines)`, and it reads exactly `StopIndex(lines)` lines |
| LlmClient.Generate | llm_client.py:27-58 | `generate` returns the stripped concatenation of the collected chunks |
| LlmClient.GeneratedTextUpToDone | llm_client.py:39-58 | the reply is the stripped concatenation of the fragments up to and including the first done record; it has no whitespace at either end |
| LlmClient.CollapseKeepsWords | llm_client.py:86 | `' '.join(s.split())` is collapsed (only single spaces, none at the ends), has the same words as `s`, and keeps every non-whitespace character in order |
| LlmClient.CollapseKeepsCollapsed | llm_client.py:86 | collapsed text is left unchanged by the collapse |
| LlmClient.CollapseIdempotent | llm_client.py:86 | collapsing twice gives the same as collapsing once |
| LlmClient.LimitLength | llm_client.py:89-94 | for a non-negative limit the result is at most `max_length` plus the marker's length |
| LlmClient.WrittenMarkerOverruns | llm_client.py:91 | with the marker as written, `"abcdef"` limited to 3 becomes `"abc"` plus three marker characters, six in all |
| LlmClient.EllipsisTruncation | llm_client.py:89-92 | with a one-character ellipsis, a cut text is a prefix of at most `max_length` characters followed by the ellipsis |
| LlmClient.LimitLengthKeepsShort | llm_client.py:89-94 | collapsed text within the limit comes back unchanged; the strip is a no-op |
| LlmClient.LimitLengthCutsAtSpace | llm_client.py:89-92 | over the limit the result is `P + marker`. When the cut holds a space, `P` is non-empty, shorter than the limit and ends right before the cut's last space. When it holds none, `P` is the whole cut |
| LlmClient.LimitLengthSingleSpaced | llm_client.py:86-94 | the limit step adds no whitespace other than the space to collapsed text, given such a marker |
| LlmClient.QuietTextSingleSpaced | llm_client.py:60-94 | `generate_quiet` output holds no newline, tab or other whitespace besides the space, when the same holds for the marker |
| LlmClient.GenerateQuiet | llm_client.py:60-94 | `generate_quiet` returns `QuietText`: collapse the collected chunks, then limit the length; the length bound holds |
| Podcast.Speaker | main.py:67 | the host speaks on even turns, the guest on odd turns |
| Podcast.SpeakersAlternate | main.py:53-67 | two turns later the same persona speaks; two consecutive turns are taken by host and guest |
| Podcast.RecentWindow | main.py:70 | `history[-history_limit:]`: the last `min(len(history), limit)` entries for a positive limit, every entry for 0, `history[k:]` for `-k` |
| Podcast.RecentChatStartsOnlyEmpty | main.py:70 | when every entry holds a `':'`, the block is `"(start)"` exactly when the history is empty |
| Podcast.RecentChatExample | main.py:70 | limit 2 on three entries gives the last two joined by a newline |
| Podcast.Entry | main.py:80 | the entry starts with the speaker's name and `": "`, followed by the reply |
| Podcast.PromptMentions | main.py:71-76 | the prompt names the language and the topic, introduces both personas with their personalities, and holds the recent-turns block and the speaker's turn line |
| Podcast.Replies | main.py:79 | one reply per response stream |
| Podcast.RepliesStep | main.py:79 | one more stream adds the reply generated from it |
| Podcast.RepliesAt | main.py:79 | reply k is the text generated from stream k |
| Podcast.Conversation.constructor | main.py:51-64 | a new conversation has the given personas and settings, an empty history and turn 0 |
| Podcast.Conversation.After | main.py:80 | each turn adds exactly one entry |
| Podcast.Conversation.PromptsAfter | main.py:71-76 | the turns send one prompt each |
| Podcast.Conversation.AfterStep | main.py:67-83 | one more turn appends the entry of the persona whose turn it is, and sends the prompt built from the history before it |
| Podcast.Conversation.AfterEntries | main.py:80 | earlier entries stay as they were; entry `len(h) + k` is `"name: reply"` of the persona whose turn it was |
| Podcast.Conversation.AfterPrefix | main.py:80 | the history after a prefix of the turns is a prefix of the history after all of them |
| Podcast.Conversation.PromptsAfterAt | main.py:67-76 | turn k's prompt is built from the history as it stood after the first k turns |
| Podcast.Conversation.AfterKeepsSpeakers | main.py:67-80 | if every entry is attributed to the persona whose turn it was, that stays true after any number of turns |
| Podcast.Conversation.TakeTurn | main.py:67-83 | one loop pass: the prompt for the current history, the generated reply, one entry appended, turn plus one, invariant kept |
| Podcast.Conversation.Run | main.py:64-84 | after n turns: `turn` grew by n, the replies are those generated from the streams, the history is `After(old history, replies)`, the prompts are `PromptsAfter` of them, invariant kept |

## Left out

- HTTP requests, `raise_for_status` and the timeouts: they are network I/O. The
  response body enters the model as an already-split sequence of lines.
- `list_models`: it is only a network call whose failures return `[]`.
- JSON decoding. `Line` records the outcome of `json.loads` and the truthiness of
  `data.get('done')`. Non-object JSON values and non-string `response` values are
  not modelled.
- Console output and `flush`, the banner, `argparse`, the SIGINT handler, `time.sleep`
  and the `KeyboardInterrupt` exit: they are I/O and process control.
- The `model` argument and the request payload: they only go to the server.
- The endless `while True`: it becomes `Conversation.Run` over a finite sequence of
  response streams. Each stream stands in for the server's answer to that turn's prompt.
- Podcast.Conversation.TakeTurn: the reply does not depend on the prompt. The server
  that links the two is not part of this model.
- LlmClient.GenerateQuiet: the `max_length` default of 240 is not modelled; the limit
  and the marker are parameters.

## Findings

| source | as written | input that shows it | evidently intended | confidence | as-written member | corrected member |
|---|---|---|---|---|---|---|
| llm_client.py:91 | appends `'â€¦'`: the UTF-8 bytes of an ellipsis read as three characters | any collapsed text longer than `max_length`, e.g. `"abcdef"` with limit 3 gives six characters | one ellipsis character `'…'` | high, not executed | LlmClient.WrittenMarkerOverruns | LlmClient.EllipsisTruncation |
