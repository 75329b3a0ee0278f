# podcast-to-youtube, modelled in Dafny

podcast-to-youtube reads a podcast RSS feed, asks which episode numbers to
publish (`1`, or a range such as `2-10`), asks for confirmation, and turns each
selected episode into a video uploaded to YouTube with metadata derived from
the episode. This project models the parts of `main.go` that carry logic:

- `parseRange`: the answer is split on `-` and each piece goes through
  `strconv.Atoi`; one piece `n` is `[n, n]`, two pieces `m-n` are `[m, n]`
  with no check that `m <= n`, more pieces are an error. Because the split
  happens first, a minus sign never reaches Atoi, so `-5` is rejected.
- the selection loop of `main`: the episodes whose number lies in the range,
  in feed order; an empty selection ends the run.
- the publish prompt: `Y`, `y` or an empty answer proceeds, anything else
  returns before authentication.
- the item loop of `fetchFeed`: one episode per item of the first channel,
  fields copied, document order kept.
- the metadata built in `process`: the description header
  `Original post: <link>` plus a blank line, the sanitised text with every
  newline replaced by a space, the tags (episode categories followed by the
  comma-split `-tags` flag) and the fixed `unlisted` privacy.
- the processing loop of `main`: episodes are processed in order and the
  first failure ends the run.

Supporting models of Go's standard library, restricted to what `main.go` uses:
`strings.Split` and `strings.Replace(s, old, new, -1)` for one-character
separators (`GoStrings`), together with a `Join` that `main.go` does not call
and that is modelled only to state the round trips of `Split` and of the
`-tags` flag; and `strconv.Atoi` for a 64-bit `int`
(`GoStrconv`): its fast path for inputs of 1 to 18 bytes and its general path
through `ParseInt` and `ParseUint`, with `strconv.Itoa` as its inverse. Go returns a value together
with a possibly-nil error; the models do the same (`Parsed`, `ParsedRange`),
so the values Go returns next to an error (0, or the saturated int64 bound for
a range error) are modelled too.

Modules: `Wrappers` (Option, Result), `GoStrings`, `GoStrconv`, `Ranges`
(`parseRange`), `Feed` (the decoded feed and `fetchFeed`'s loop), `Metadata`
(the upload metadata of `process`), `Command` (the control flow of `main`).

The model follows the code as written, which is worth noting on three points:

- newlines in the description are replaced one for one (`"\n\n"` becomes two
  spaces); they are not collapsed into a single space;
- a feed without any channel makes `data.Channel[0]` panic (index out of
  range); the code reports no explicit empty-feed error, and the model's
  outcome is `IndexOutOfRange`;
- the pair form accepts only unsigned or `+`-signed numbers, since a `-`
  is always taken as the range separator.

## Model

| member | source | states |
|---|---|---|
| `GoStrings.Split` | main.go:163 | `strings.Split` yields one more piece than there are separators, and no piece contains the separator |
| `GoStrings.JoinSplit` | main.go:255 | joining the pieces of a split with the same separator gives the original string back |
| `GoStrings.SplitJoin` | main.go:255 | splitting a join of non-empty lists of separator-free pieces gives the pieces back |
| `GoStrings.SplitWithoutSep` | main.go:163-166 | a string without the separator splits into exactly itself |
| `GoStrings.SplitAtFirstSep` | main.go:167-173 | splitting `a-b` with `a` dash-free gives `a` followed by the pieces of `b` |
| `GoStrings.ReplaceAllAt` | main.go:250 | replacing all newlines keeps the length, changes exactly the newline positions to spaces and leaves no newline |
| `GoStrings.ReplaceAllIsSplitJoin` | main.go:250 | `Replace(s, old, new, -1)` equals splitting on `old` and joining with `new` |
| `GoStrconv.ScanDigits` | main.go:165 | ParseUint's digit loop: a value within 64 unsigned bits, 0 on a syntax error, 2^64-1 on a range error |
| `GoStrconv.ScanDigitsValue` | main.go:165 | on decimal digits the loop returns their value exactly when it fits in 64 unsigned bits, else a range error |
| `GoStrconv.ParseIntSpec` | main.go:165-172 | the general path accepts exactly int64 literals and returns their value; out-of-range literals saturate with a range error; syntax errors return 0 |
| `GoStrconv.ShortScanAgrees` | main.go:165 | while at most 18 digits can have been read, the fast digit loop and ParseUint's loop return the same result, below 10^18 |
| `GoStrconv.AtoiShortAgrees` | main.go:165 | on inputs of 1 to 18 characters Atoi's fast path returns the same value and error as ParseInt |
| `GoStrconv.AtoiSpec` | main.go:165-172 | Atoi succeeds exactly on an optional sign plus one or more digits whose value fits in int64, and returns that value; an out-of-range literal saturates at the bound on its side; a syntax error returns 0 |
| `GoStrconv.AtoiItoa` | main.go:165 | Atoi reads back every int64 that Itoa prints |
| `Ranges.ParseRangeSingle` | main.go:163-166 | a dash-free answer is accepted exactly when it is an int64 literal `n`, and gives `(n, n, nil)` |
| `Ranges.ParseRangePair` | main.go:167-173 | an answer `a-b` is accepted exactly when both sides are int64 literals, and gives `(a, b, nil)` in that order without comparing them |
| `Ranges.ParseRangeTooManyDashes` | main.go:174-175 | two or more dashes give `(0, 0)` and the "only formats supported" error |
| `Ranges.ParseRangeTwoDashes` | main.go:174-175 | every answer of the shape `a-b-c`, such as `1-2-3`, gives `(0, 0)` and that error |
| `Ranges.ParseRangeLeadingDash` | main.go:163-170 | an answer starting with `-`, such as `-5`, is rejected |
| `Ranges.ParseRangeTrailingDash` | main.go:167-173 | an answer ending with `-`, such as `3-`, is rejected |
| `Ranges.ParseRangeRejectsNonNumbers` | main.go:164-166 | the empty answer and `abc` are rejected |
| `Ranges.ParseRangeOfNumber` | main.go:164-166 | the decimal form of any non-negative int64 `n` gives `(n, n, nil)` |
| `Ranges.ParseRangeOfPair` | main.go:167-173 | `m-n` in decimal, for non-negative int64 values, gives `(m, n, nil)` whatever their order |
| `Ranges.ParseRangeExample` | main.go:167-173 | `2-10` gives `(2, 10, nil)` |
| `Feed.EpisodesOf` | main.go:146-157 | one episode per item of the first channel, in document order, with title, order, guid, summary, enclosure url and categories copied into Title, Number, Link, Desc, MP3 and Tags |
| `Metadata.VideoMetadata` | main.go:249-257 | title as given; description is the header followed by the sanitised text, position by position, newlines turned into spaces and no newline left; tags are the episode tags followed by the comma-split flag, one more extra tag than commas, joining back to the flag; privacy is `unlisted` |
| `Metadata.DescriptionWithoutNewlines` | main.go:249-254 | sanitised text without newlines is carried into the description unchanged after the header |
| `Metadata.DescriptionExample` | main.go:254 | link `http://x/1` and text `Hello world` give `Original post: http://x/1\n\nHello world` |
| `Metadata.DefaultTags` | main.go:255 | the default flag `podcast,gcppodcast` appends exactly the tags `podcast` and `gcppodcast` |
| `Command.Select` | main.go:75-81 | the loop appends exactly the in-range episodes, each from the feed and in range |
| `Command.SelectedIsSubsequence` | main.go:75-81 | the selection is a subsequence of the feed, so feed order is kept |
| `Command.SelectedCounts` | main.go:75-81 | each in-range episode appears as often as in the feed, every other episode never |
| `Command.SelectedMembers` | main.go:76-78 | an episode is selected if and only if it is in the feed and `from <= Number <= to` |
| `Command.SelectedEmpty` | main.go:77-84 | the selection is empty exactly when no feed episode is in range, and always when `from > to` |
| `Command.SelectedExample` | main.go:75-81 | episodes numbered 1, 2, 3, 5 with range 2-10 select 2, 3, 5 in that order |
| `Command.Run` | main.go:59-93 | fetch errors, a feed without channels, an invalid range and an empty selection each end the run with their own outcome in that order; with a selection, the run goes on to authenticate if and only if the answer is `Y`, `y` or empty, and otherwise ends without authenticating |
| `Command.PublishAll` | main.go:98-102 | episodes are processed in order; every episode before the stopping point succeeded; the run stops at the first failure, reporting that episode's number and error, or after the last episode |

## Left out

- HTTP fetching and XML decoding in `fetchFeed` (main.go:120-144): network and a library decoder; the model starts from the decoded document, and fetch or decode errors are one input.
- `authedClient` (main.go:180-202): credential file, OAuth2 library and standard input; `Run` stops at the decision to authenticate.
- `process` apart from its metadata (main.go:206-247, 261-264): temporary directory, slide image generation, PNG writing, the `ffmpeg` process, the title template and the upload call are external; their combined result per episode is an input of `PublishAll`.
- The HTML sanitiser (main.go:249): its output is an input string of `VideoMetadata`.
- `writePNG`, `ffmpeg` and `upload` (main.go:268-315): file, process and network effects.
- Reading answers with `fmt.Scanln` and printing prompts and the `episode %d: %s` lines (main.go:67-69, 79, 86-88): console I/O; each answer is an input.
- `failf` and `os.Exit` (main.go:105-108): each fatal path is an outcome value instead.
- `GoStrings`: only one-character separators are modelled, which is all main.go uses; Go works on bytes and the model on characters, which gives the same pieces because the separators are ASCII.
- `GoStrconv.AtoiSpec`: a 32-bit `int` platform is not modelled; the fast path is chosen on the length in characters rather than in bytes, which changes nothing here because a non-ASCII character is a syntax error on either path before any overflow can occur; the error's `Func` and `Num` fields are not modelled, only its kind.
- `Feed.EpisodesOf`: the order field is decoded into an `int`; the decoder's own range and syntax checks for it are part of XML decoding.
- `Metadata.VideoMetadata`: `append(ep.Tags, ...)` may write into spare capacity of the episode's tag slice; that sharing is not observable in the program and is not modelled.
