# chatty-patty text preparation, in Dafny

chatty-patty is a pair of small text-to-speech scripts:

- `narrator.py` reads a text file aloud with gTTS.
- `voice.py` does the same with Coqui TTS.

Before any speech engine is called, both scripts run a pure front end. It cleans the text, cuts it into chunks the engine accepts, and decides how the chunks are voiced and where the audio goes. This project models that front end as total functions over `seq<char>` and proves what it guarantees.

The model is organised in seven modules:

- `CharClasses` (`charclasses.dfy`) holds the character classes the regular expressions use. `IsSpace` is the set of code points Python's `str.isspace` accepts. The same predicate stands for `\s`, `str.split()` and `str.strip()`. "ASCII" means a code point below 128. `Run` is the maximal run of a class, which is how every `+` in the patterns matches.
- `Whitespace` (`whitespace.dfy`) models `str.split()`, `" ".join`, the `\s+` to `" "` collapse and `strip()`. The property they share is `SingleSpaced`: the only whitespace is single `' '` characters, never at either end.
- `Packing` (`packing.dfy`) holds the greedy packing loop both chunkers use. `Pack` is the loop as written, over strings, with `slack` for the `+ 1` only narrator.py adds. `Plan` is the same loop over groups of units. `PackPlan` proves the two agree, and every chunking property is proved on the groups.
- `Narrator` (`narrator.dfy`) models narrator.py:
  - the five regular-expression substitutions, each a left-to-right scan with a match-at-the-start helper;
  - the symbol strip;
  - `clean_text` and `chunk_text`;
  - the language for each chunk;
  - the synthesis loop and the joining of segments, with the speech engine as a parameter.
- `NarratorExamples` (`narrator_examples.dfy`) states worked inputs for whole families of words and letters. They cover emphasis removal, the non-idempotent clean-up, the ten-character chunking example and the two-language schedule.
- `Voice` (`voice.dfy`) models voice.py:
  - `clean_text`;
  - the sentence split `re.split(r'(?<=[.!?]) +')`;
  - `chunk_text`, which cleans each piece, drops pieces shorter than five characters, then packs;
  - the `.mp3` output-name rewrite through POSIX `os.path.splitext`;
  - the "no valid text" stop.
- `Results` (`results.dfy`) holds `Option` and `Result`.

Behaviour the model keeps exactly as the code has it:

- **Empty first chunk.** Both chunkers start with an empty buffer, so a first word or sentence that does not fit flushes `""` as chunk 0. A single oversized word gives `["", w]`, not `[w]`.
- **Less room for chunk 0.** The buffer for chunk 0 carries a leading space that counts against the budget.
- **Budget tests differ.** narrator.py keeps `len(cur) + len(w) + 1 < max_chars`, so a chunk of two or more words has length at most `max_chars - 1`. voice.py keeps `len(cur) + len(s) < max_chars`, so a chunk of two or more sentences can reach `max_chars`.
- **narrator.py's clean-up is not idempotent.** The symbol strip runs after the emoji pattern. `:x*y:` cleans to `:xy:`, which cleans to `""`.
- **voice.py cleans after splitting.** It splits the raw text, so the split sees the original spaces and newlines. Only runs of U+0020 after `.`, `!` or `?` cut.

## Model

| member | source | states |
|---|---|---|
| `Narrator.BoldMatch` | narrator.py:13 | a bold match covers `**`, a non-empty run without `*`, and `**`, and is replaced by that run |
| `Narrator.BoldFinds` | narrator.py:13 | text starting with `**w**`, for any non-empty `w` without `*`, is matched there and `w` replaces it |
| `Narrator.ItalicMatch` | narrator.py:14 | an italic match covers `*`, a non-empty run without `*`, and `*`, and is replaced by that run |
| `Narrator.ItalicFinds` | narrator.py:14 | text starting with `*w*`, for any non-empty `w` without `*`, is matched there and `w` replaces it |
| `Narrator.CodeMatch` | narrator.py:15 | a code match covers one or more backticks, a non-empty run without backticks, and one or more backticks; the closing run is taken whole, and the run is what replaces the match |
| `Narrator.CodeFinds` | narrator.py:15 | `a` backticks, a non-empty `w` without backticks, `b` backticks and text not starting with a backtick: the match spans both backtick runs and `w`, and `w` replaces it |
| `Narrator.LinkMatch` | narrator.py:16 | a link match covers `[`, a non-empty caption without `]`, `](`, a non-empty URL without `)`, and `)`, and the caption replaces it |
| `Narrator.LinkFinds` | narrator.py:16 | text starting with `[caption](url)`, both parts non-empty and free of their closing bracket, is matched there and the caption replaces it |
| `Narrator.EmojiMatch` | narrator.py:17 | an emoji match covers `:`, a non-empty run of `a`-`z` and `_`, and `:`, and is replaced by nothing |
| `Narrator.EmojiFinds` | narrator.py:17 | text starting with `:name:`, for any non-empty name of `a`-`z` and `_`, is matched there and removed |
| `Narrator.Sub` | narrator.py:13-17 | one substitution pass never lengthens the text, and a pass that keeps the length changed nothing |
| `Narrator.SubCopies` | narrator.py:13-17 | text without the pattern's opening character passes through a substitution unchanged |
| `Narrator.Substitute` | narrator.py:13-17 | the five substitutions in order never lengthen the text |
| `Narrator.DropMarkup` | narrator.py:18 | the symbol strip leaves none of `` # * _ ~ ` > `` and never lengthens the text |
| `Narrator.DropMarkupKeeps` | narrator.py:18 | text without those symbols is left unchanged |
| `Narrator.DropMarkupAppend` | narrator.py:18 | the strip works character by character: stripping a concatenation concatenates the stripped parts |
| `Narrator.Clean` | narrator.py:12-20 | `clean_text` never lengthens its input; its result has no markup symbol, no whitespace at either end and no whitespace but single spaces |
| `Narrator.CleanUnchanged` | narrator.py:12-20 | text with none of `` * ` [ : # _ ~ > `` and already single-spaced comes back unchanged |
| `Narrator.ChunkGroups` | narrator.py:23-31 | the chunks are, in order, the words of the text in consecutive groups, each joined by single spaces |
| `Narrator.ChunkKeepsWords` | narrator.py:24-30 | every chunk is its own words joined by single spaces, and the chunks' words in order are exactly `text.split()` |
| `Narrator.ChunkBound` | narrator.py:26-29 | a non-empty chunk 0 is at most `max_chars - 2` long; any later chunk that is not a single word is shorter than `max_chars` |
| `Narrator.ChunkGreedy` | narrator.py:26-29 | a chunk closes only when adding a space and the next chunk's first word would reach `max_chars`, counting chunk 0's leading space |
| `Narrator.ChunkEmpty` | narrator.py:24-31 | there are no chunks exactly when the text is blank; only chunk 0 can be empty, and it is empty exactly when the first word's length plus one reaches `max_chars` |
| `Narrator.OversizedWord` | narrator.py:26-31 | a single word that does not fit gives the chunks `["", w]` |
| `Narrator.Schedule` | narrator.py:81 | there is one language per chunk, and each is `lang1` or `lang2` |
| `Narrator.ScheduleAlternates` | narrator.py:81 | with `lang2` unset or empty every chunk gets `lang1`; otherwise chunk 0 gets `lang1`, chunk 1 gets `lang2`, and the choice repeats every two chunks |
| `Narrator.SynthesizeAll` | narrator.py:80-85 | chunks are synthesized in order, each in its scheduled language; on success there is one segment per chunk, and a failure names the first chunk that failed after all earlier ones succeeded |
| `Narrator.AddAllFlatten` | narrator.py:87 | adding segments one by one onto an accumulator appends them all, in order |
| `Narrator.AssembleInOrder` | narrator.py:87 | `sum(audio_segments[1:], audio_segments[0])` is all segments concatenated in chunk order |
| `Narrator.NarrateNothing` | narrator.py:69-74 | a run stops with nothing to narrate exactly when the cleaned text is blank |
| `Narrator.SpeakTrack` | narrator.py:80-88 | a successful run's audio is one segment per chunk, in chunk order, each synthesized from that chunk in its scheduled language |
| `Narrator.SpeakFailure` | narrator.py:72-85 | a run fails with nothing to narrate exactly when there are no chunks; otherwise it names the first chunk whose synthesis failed, all earlier ones having succeeded |
| `NarratorExamples.CleanBold` | narrator.py:13 | `**w**` cleans to `w` for any word `w` of plain characters |
| `NarratorExamples.CleanUnderscores` | narrator.py:18 | `_w_` cleans to `w`: underscores are removed by the symbol strip, not by a pattern |
| `NarratorExamples.CleanNotIdempotent` | narrator.py:17-18 | for letters `x` and `y`, `:x*y:` cleans to `:xy:`, and cleaning that again gives `""` |
| `NarratorExamples.ChunkTen` | narrator.py:23-31 | words of lengths 5, 6, 4, 2 and 6 chunk at `max_chars` 10 into four chunks, and only the two short words share one |
| `NarratorExamples.ScheduleFour` | narrator.py:81 | four chunks with `en` and `fr` are voiced `en, fr, en, fr`; an unset or empty `lang2` gives `en` throughout |
| `Packing.Plan` | narrator.py:24-31 | the groups of the packing loop hold exactly the buffered units followed by the input units, in order |
| `Packing.PackPlan` | narrator.py:25-30 | the loop as written over strings produces exactly the groups' joined texts |
| `Packing.PlanBound` | narrator.py:26-29 | every group of two or more units, and a lone unit in chunk 0 counting its leading space, fits the budget |
| `Packing.PlanGreedy` | narrator.py:26-29 | a group closes only when the next group's first unit would not fit in it |
| `Packing.PlanNonEmpty` | narrator.py:24-30 | only the first group can be empty, and only when the loop starts with an empty buffer |
| `Packing.PlanFirst` | narrator.py:26-29 | there are no groups exactly when there are no units; the first group is empty exactly when the first unit does not fit |
| `Packing.JoinChunks` | voice.py:33-38 | the non-empty chunks joined with spaces give all the units joined with spaces |
| `Packing.GreedyGroups` | narrator.py:24-31 | the chunks are the groups' joined texts; the groups flatten back to the units and every chunk is single-spaced |
| `Packing.GreedyEmpty` | voice.py:27-38 | the loop gives no chunks exactly when there are no units; only chunk 0 can be empty, exactly when the first unit does not fit |
| `Packing.GreedyBound` | voice.py:32-36 | chunk 0, when not empty, leaves room for its leading space; a later chunk of two or more units fits the budget |
| `Packing.GreedyMaximal` | voice.py:32-36 | every chunk but the last is closed because the next unit would not fit |
| `Whitespace.Split` | narrator.py:24 | `str.split()` gives non-empty words without whitespace |
| `Whitespace.SplitEmpty` | narrator.py:24 | `str.split()` gives no words exactly when the text is all whitespace |
| `Whitespace.SplitSep` | narrator.py:27 | splitting `a + " " + b` gives the words of `a` followed by the words of `b` |
| `Whitespace.SplitJoin` | narrator.py:24 | words joined by single spaces split back into the same words |
| `Whitespace.JoinSplit` | narrator.py:24-27 | single-spaced text is its own words joined by single spaces |
| `Whitespace.Collapse` | narrator.py:19 | collapsing `\s+` never lengthens the text and leaves no whitespace but `' '` |
| `Whitespace.Strip` | narrator.py:20 | `strip()` never lengthens the text, leaves no whitespace at either end and empties all-whitespace text |
| `Whitespace.StripPhrase` | narrator.py:29 | a buffer with no whitespace at its ends strips to itself, and to itself again after a leading space |
| `Whitespace.CollapseStrip` | narrator.py:19-20 | collapsing then stripping gives the text's words joined by single spaces |
| `Whitespace.Normalised` | narrator.py:19-20 | collapsing then stripping gives single-spaced text and leaves single-spaced text unchanged |
| `Whitespace.Normalise` | voice.py:20 | the collapse-and-strip never lengthens the text, is single-spaced, and every character it keeps is a space or comes from the input |
| `Voice.ReplaceNonAscii` | voice.py:18 | replacing runs of non-ASCII characters with one space never lengthens the text and leaves only ASCII |
| `Voice.ReplaceKeeps` | voice.py:18 | ASCII text is left unchanged |
| `Voice.SplitReplace` | voice.py:18-20 | replacing a non-ASCII run with one space splits into the same words as replacing each of its characters with a space |
| `Voice.Clean` | voice.py:16-21 | `clean_text` never lengthens its input; its result is ASCII, has no whitespace at either end and no whitespace but single spaces |
| `Voice.CleanWords` | voice.py:18-20 | `clean_text` gives the input's words, with each non-ASCII character treated as a space, joined by single spaces |
| `Voice.CleanFixed` | voice.py:16-21 | `clean_text` leaves text unchanged exactly when it is ASCII and single-spaced, and cleaning twice equals cleaning once |
| `Voice.FirstCut` | voice.py:26 | the cut found is the leftmost space that follows `.`, `!` or `?` at or after the start, or the end of the text when there is none |
| `Voice.Sentences` | voice.py:26 | `re.split` always returns at least one piece |
| `Voice.SentencesRebuild` | voice.py:26 | the text is its pieces with the dropped runs, each of one or more spaces, put back between them in order |
| `Voice.SentencesShape` | voice.py:26 | no piece contains a terminator followed by a space, every piece but the last ends in `.`, `!` or `?`, and no piece after the first starts with a space |
| `Voice.SentencesOfJoin` | voice.py:26 | pieces of that shape joined by single spaces split back into the same pieces |
| `Voice.Kept` | voice.py:28-31 | every kept sentence is cleaned, ASCII, single-spaced and at least five characters long, and there are no more of them than pieces |
| `Voice.KeptAppend` | voice.py:28-31 | the filter works sentence by sentence: a piece is kept, cleaned, exactly when its cleaned length is at least five |
| `Voice.ChunkKeepsSentences` | voice.py:26-38 | the chunks are the kept sentences in consecutive groups; the non-empty chunks joined by spaces equal the kept sentences joined by spaces, and every chunk is single-spaced |
| `Voice.ChunkBound` | voice.py:32-36 | a non-empty chunk 0 is shorter than `max_chars`; any later chunk of two or more sentences is at most `max_chars` long |
| `Voice.ChunkGreedy` | voice.py:32-36 | a chunk closes only when it and the next chunk's first sentence together reach `max_chars`, counting chunk 0's leading space |
| `Voice.ChunkEmpty` | voice.py:27-38 | no sentence kept means no chunks; only chunk 0 can be empty, and it is empty exactly when the first kept sentence has at least `max_chars` characters |
| `Voice.SplitExt` | voice.py:80 | the root and the extension put back together give the path |
| `Voice.SplitExtFound` | voice.py:80 | a non-empty extension is a dot followed by neither dots nor slashes, after a path component that is not all dots |
| `Voice.SplitExtUnique` | voice.py:80 | whenever the path ends in such an extension, that is the one `splitext` returns |
| `Voice.OutputNameSpec` | voice.py:78-80 | with `--mp3` the name ends in `.mp3` and keeps everything but the old extension; a name already ending in `.mp3`, or any name without the flag, is kept; applying the rule again changes nothing |
| `Voice.PrepareOutcome` | voice.py:77-86 | the run stops for lack of text exactly when no sentence survives the filter; otherwise, with `--mp3`, the output name ends in `.mp3` |

## Left out

- Argument parsing, the banner and colours, the console messages and the tips: presentation only.
- Reading the input file, the existence check, and the choice between `--file` and `--text`: I/O. The model starts from the text that was read.
- `sys.exit` and `return` on the stop paths are modelled as `Err` values (`NothingToNarrate`, `NoValidText`).
- The speech engines are not modelled. gTTS with the pydub MP3 decoding is a parameter `synth` of the narrator model, which may fail. Coqui TTS, its model table and voice choice, `save_wav`, `--list_speakers` and `playsound` are outside the voice model, which stops at the chunks and the output name.
- Temporary files `tmp_{i}.mp3` and their removal, the final MP3 export, and the progress bar: file-system side effects and display.
- `os.path.splitext` is modelled with POSIX rules only. The Windows variant, with `\` and drive letters, is not modelled.
- Unicode categories beyond whitespace and ASCII are not modelled. `IsSpace` is the fixed set of code points `str.isspace` accepts, and the `[a-z_]` and `[^\x00-\x7F]` classes compare code points.
- `Narrator.Chunk` and `Voice.Chunk` take `max_chars` as any integer, as the code does. Nothing validates it, so a budget of 0 or below simply gives one chunk per unit after an empty chunk 0.
- `NarratorExamples.CleanNotIdempotent` shows only the emoji case. The second example of the same effect, `[a]*(b)` giving `[a](b)` and then `a`, is not stated.
- The full sentence "Hello **world**! This is _great_." is not stated as one literal. It is covered in parts by `NarratorExamples.CleanBold`, `NarratorExamples.CleanUnderscores` and `NarratorExamples.ChunkTen`.
