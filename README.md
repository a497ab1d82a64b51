# slack-annotations: the message renderer, in Dafny

slack-annotations polls the Hypothesis search API for annotations created
since a checkpoint and posts them to a Slack webhook. This project models the
renderer, `src/slack_annotations/format.py`. The renderer turns a list of
annotation records into one Slack message payload.

- Each annotation becomes a `section` block with a one-line mrkdwn summary:
  `` `username` (display name) annotated <uri|title> in `group`: ``.
- The section's fields depend on the annotation's kind: a quoted annotation,
  a reply, or a page note.
- Sections are separated by `divider` blocks.
- The message carries a count text and ends with a fixed attribution
  `context` block.
- An empty list gives an empty payload.

Modules:

- `Wrappers` holds `Option` and `Result`.
- `Strings` models Python's `str.split(sep)`, `sep.join` and `str(n)`.
- `Html` models `html.escape` and a reference decoder for it.
- `Whitespace` models `str.split()` with no argument and `" ".join`. The
  whitespace set of `str.isspace` is written out as code points.
- `Annotations` holds the record and payload datatypes.
- `Format` holds every function of `format.py`. `format_annotations` and
  `_get_quote` loop, so they are the methods `FormatAnnotations` and
  `GetQuote`. `_build_annotation_fields` builds a list and then appends the
  text field to it, so it is the method `BuildFields`. Each method is proved
  equal to a specification function, and lemmas about those functions carry
  the properties.

A raised exception that nothing catches becomes a `Failure`. A caught one
becomes an `Option`:

- A `user` without `:` makes `split(":")[1]` raise `IndexError`. This is
  `Failure(MalformedUser(user))`, and it aborts `format_annotations`.
- `_get_quote` raises `KeyError` for a missing `target` or `selector`. This is
  `QuoteError.MissingKey`.
- `_get_quote` raises `ValueError` when no exact is found. This is
  `QuoteError.NotFound`.
- `_build_annotation_fields` swallows both `_get_quote` errors: the quote is
  then absent (`QuoteOrNone`).

Three behaviours of the code are easy to miss:

- The "(None)" placeholder applies only to the annotation text. A selector
  with an empty `exact` is skipped, not replaced by a placeholder.
- The group clause is left out for an empty group name as well as for a
  missing one, because the code tests truthiness.
- The username is the text between the first and the second `:`, cut at the
  first `@`. This is `split(":")[1].split("@")[0]`, not "everything after the
  prefix".

## Model

| member | source | states |
|---|---|---|
| Html.Escape | src/slack_annotations/format.py:9 | `html.escape` with `quote=True`, one character at a time; `EscapeSpec`, `UnescapeEscape` and `EscapeUnchanged` state its results |
| Html.EscapeSpec | src/slack_annotations/format.py:9 | escaped text holds no `<`, `>`, `"` or `'`; it is never shorter than the input and is empty only for empty input |
| Html.UnescapeEscape | src/slack_annotations/format.py:9 | escaping loses nothing: decoding the five entities gives back the original text |
| Html.EscapeUnchanged | src/slack_annotations/format.py:9 | escaping changes a text exactly when it holds one of `& < > " '` |
| Whitespace.WordsAreWords | src/slack_annotations/format.py:10 | `str.split()` yields only non-empty, whitespace-free words |
| Whitespace.Words | src/slack_annotations/format.py:10 | `str.split()` with no argument; `WordsAreWords` and `CollapseSpec` state its results |
| Whitespace.Collapse | src/slack_annotations/format.py:10 | `" ".join(s.split())`; `CollapseSpec`, `CollapseIdempotent` and `CollapseNormalized` state its results |
| Whitespace.CollapseSpec | src/slack_annotations/format.py:10 | `" ".join(s.split())` is normalized (single inner spaces, none at the ends), has exactly the words of `s`, keeps every non-whitespace character in order, and is empty exactly when `s` is blank |
| Whitespace.CollapseIdempotent | src/slack_annotations/format.py:10 | collapsing whitespace twice is collapsing it once |
| Whitespace.CollapseNormalized | src/slack_annotations/format.py:10 | text already in normalized form is left unchanged |
| Whitespace.WordsJoin | src/slack_annotations/format.py:10 | splitting words joined by single spaces gives back the words |
| Format.NormalizeTitle | src/slack_annotations/format.py:8-10 | `normalize_title`, escaping then collapsing whitespace; `NormalizeTitleSpec` states its result |
| Format.NormalizeTitleSpec | src/slack_annotations/format.py:8-10 | a normalized title is escaped and collapsed: normalized spacing, exactly the words of the escaped text, its non-whitespace in order, no angle bracket, empty exactly when the title is blank |
| Format.EscapeBlank | src/slack_annotations/format.py:9-10 | escaping leaves blank text blank and non-blank text non-blank |
| Format.Trim | src/slack_annotations/format.py:33-37 | the result is at most 2000 long; text up to 2000 is returned unchanged; longer text becomes its first 1997 characters followed by "...", exactly 2000 long |
| Format.TrimIdempotent | src/slack_annotations/format.py:33-37 | trimming is idempotent and never empties a non-empty text |
| Format.GetText | src/slack_annotations/format.py:40-44 | a missing or empty text gives "(None)"; any other text is trimmed; the result is non-empty and at most 2000 long |
| Format.FirstExactIn | src/slack_annotations/format.py:27-28 | the index of the first selector with a non-empty `exact`, or none when no selector has one |
| Format.FindExactFrom | src/slack_annotations/format.py:26-30 | the scan runs targets in the outer loop and selectors in the inner one; a hit is the first non-empty exact with every earlier target exhausted; NotFound holds exactly when every target is exhausted; MissingKey holds exactly when a target without `selector` comes before any hit |
| Format.FindExactFirstHit | src/slack_annotations/format.py:26-29 | the first non-empty exact in scan order is the position the search returns |
| Format.QuoteOf | src/slack_annotations/format.py:25-30 | a found quote is non-empty and at most 2000 long; a record without `target` gives MissingKey |
| Format.GetQuote | src/slack_annotations/format.py:25-30 | the nested loop with its early return computes `QuoteOf` |
| Format.Username | src/slack_annotations/format.py:80 | a username exists exactly when `user` holds `:`, and it holds neither `:` nor `@` |
| Format.UsernameOfAccount | src/slack_annotations/format.py:80 | for `scheme:name@authority`, the extracted username is `name` |
| Strings.Split | src/slack_annotations/format.py:80 | `str.split(c)` always yields at least one piece; `JoinSplit`, `SplitSeveral` and `SplitPiecesFree` state the rest |
| Strings.Join | src/slack_annotations/format.py:80 | `c.join(pieces)`, the partner of `Split` in `JoinSplit` |
| Strings.JoinSplit | src/slack_annotations/format.py:80 | `str.split(c)` loses nothing: joining the pieces with `c` gives back the string |
| Strings.SplitSeveral | src/slack_annotations/format.py:80 | a string splits into more than one piece exactly when it holds the separator, so `[1]` exists exactly then |
| Strings.SplitPiecesFree | src/slack_annotations/format.py:80 | no piece of `str.split(c)` contains `c` |
| Format.DocumentTitle | src/slack_annotations/format.py:84-87 | the normalized first title, or none when there is no title; `DocumentLinkSpec` states how it is used |
| Format.DocumentLink | src/slack_annotations/format.py:88-91 | `<uri|title>` or the bare URI; `DocumentLinkSpec` states which |
| Format.DocumentLinkSpec | src/slack_annotations/format.py:82-91 | without title text the link is the bare URI; with it, the link is `<uri|normalized title>` and differs from the URI |
| Format.FormattedUser | src/slack_annotations/format.py:93-95 | the backticked username with the display name in parentheses when there is one; `DisplayNameInsert` states it |
| Format.FormattedGroup | src/slack_annotations/format.py:96 | `` in `group` `` for a non-empty group name; `SummaryGroup` states its effect |
| Format.SummaryLine | src/slack_annotations/format.py:97 | the f-string that joins user, link and group; `SummaryOfAccount`, `SummaryDisplayName` and `SummaryGroup` state the line it gives for an annotation |
| Format.Summary | src/slack_annotations/format.py:77-97 | building the summary fails exactly when `user` has no `:`, with that user as the error |
| Format.SummaryShape | src/slack_annotations/format.py:93-97 | the summary opens with the username in backticks and ends with `:` |
| Format.DisplayNameInsert | src/slack_annotations/format.py:93-95 | an empty display name adds nothing; a non-empty one adds ` (escaped name)` after the username |
| Format.SummaryDisplayName | src/slack_annotations/format.py:81-97 | missing and empty display names give the same summary; a display name only inserts ` (name)` right after the backticked username |
| Format.SummaryGroup | src/slack_annotations/format.py:96-97 | an empty group name equals no group; a group name only inserts `` in `group` `` before the final colon |
| Format.SummaryOfAccount | src/slack_annotations/format.py:77-97 | for `scheme:name@authority` with no display name and no group, the summary is exactly `` `name` annotated `` followed by the document link and `:` |
| Format.QuoteOrNone | src/slack_annotations/format.py:101-105 | the quote is present exactly when `_get_quote` succeeds, and then it is that quote |
| Format.Classify | src/slack_annotations/format.py:108-130 | the kinds are checked in order: quoted exactly when a quote is found; a reply exactly when there is no quote and `references` is non-empty; a page note exactly when there is neither |
| Format.Fields | src/slack_annotations/format.py:106-131 | four fields for a quoted annotation, two otherwise; the last field is always the plain-text annotation text |
| Format.QuoteBeatsReply | src/slack_annotations/format.py:108-117 | with a quote, `references` does not change the fields, which open with "*Quote:*" and hold the quote third |
| Format.FieldsByKind | src/slack_annotations/format.py:106-131 | the labels of each kind: "*Quote:*", then `*Annotation* (<incontext|in-context link>):`, then the quote; `*Reply* (<incontext|in-context link>):` for a reply; `*Page Note* (<incontext|in-context link>):` for a page note |
| Format.BuildFields | src/slack_annotations/format.py:100-132 | the method that builds the list and appends the text field computes `Fields` |
| Format.FormatAnnotation | src/slack_annotations/format.py:13-22 | formatting fails exactly when `user` has no `:`, with that user as the error |
| Format.SectionShape | src/slack_annotations/format.py:13-22 | a formatted annotation is a section whose mrkdwn text is exactly the summary and whose fields are exactly the built fields; so the text opens with the backticked username and ends with `:`, and there are four fields with a quote and two otherwise, the last being the text |
| Format.CountText | src/slack_annotations/format.py:53-57 | the message's `text`; `CountTextReadsBack` states it |
| Format.CountTextReadsBack | src/slack_annotations/format.py:53-57 | one annotation gives "A new annotation was posted"; more give a decimal numeral with no leading zero that reads back as the count, followed by " new annotations" |
| Strings.NatToString | src/slack_annotations/format.py:54 | `str(n)` is never empty; `NatToStringRoundTrip` states the rest |
| Strings.NatToStringRoundTrip | src/slack_annotations/format.py:54 | `str(n)` writes only digits, with no leading zero, and reads back as `n` |
| Format.Sections | src/slack_annotations/format.py:59-60 | one formatted section per annotation; `SectionsAt` states which |
| Format.SectionsAt | src/slack_annotations/format.py:59-60 | section `k` of the digest is annotation `k` formatted, so input order is kept |
| Format.Interleave | src/slack_annotations/format.py:58-61 | the blocks after `i` rounds of the loop; the `Interleave…` lemmas state them |
| Format.InterleaveSucceeds | src/slack_annotations/format.py:59-61 | the loop gets through `i` rounds exactly when each of the first `i` sections was built |
| Format.InterleaveFailsAtFirst | src/slack_annotations/format.py:59-61 | an aborted loop carries the error of the first section that failed |
| Format.InterleaveFailureSticks | src/slack_annotations/format.py:59-61 | once the loop has failed, later rounds keep that failure |
| Format.InterleaveBlocks | src/slack_annotations/format.py:58-61 | after `i` rounds there are `2·i` blocks: section `k` at `2·k` and a divider at `2·k+1` |
| Format.Assemble | src/slack_annotations/format.py:50-74 | the payload for the sections built; `AssembleLayout` states it |
| Format.AssembleLayout | src/slack_annotations/format.py:50-74 | no sections give the empty payload; the payload fails exactly when some section failed, with the first failure's error; otherwise it is the count text and `2n+1` blocks: section `i` at `2i`, a divider at `2i+1`, the attribution block last |
| Format.Digest | src/slack_annotations/format.py:47-74 | the payload `format_annotations` returns; `DigestLayout` states it |
| Format.DigestLayout | src/slack_annotations/format.py:47-74 | no annotations give the empty payload; the result fails exactly when some `user` is malformed, with the first one's error; otherwise it is the count text and `2n+1` blocks: section `i` at `2i`, a divider at `2i+1`, the attribution block last |
| Format.AppendSection | src/slack_annotations/format.py:59-61 | one loop round appends the section and a divider, or stops with the section's error |
| Format.AssembleFailsAt | src/slack_annotations/format.py:59-61 | a section that cannot be built makes its error the result of the whole call |
| Format.FormatAnnotations | src/slack_annotations/format.py:47-74 | the method computes `Digest`, the payload whose layout `DigestLayout` states |

## Left out

- `src/slack_annotations/core.py`: the HTTP search call, its query parameters and the checkpoint file it reads and writes. That is network and file I/O; checkpoint storage and the query builder are not part of this model.
- `src/slack_annotations/cli.py`: argument parsing and posting to the webhook, which is I/O.
- Records are typed. The required keys `user`, `user_info`, `uri` and `links.incontext` are plain fields, so the `KeyError` a missing one would raise is not modelled. A missing or ill-typed `user_info` is not modelled either.
- Records are assumed to hold strings and lists where the code expects them. JSON values of another type (a number as a title, say) are not modelled. The same goes for the errors `normalize_title` could raise on them, which the `try` around the title would catch.
- Strings are sequences of code points. `html.escape` and `str.split()` are stated per character, with the whitespace set written out. Anything Python does beyond that per-character view is not modelled.
- Format.FormatAnnotation: uses the function `Fields` rather than calling the method `BuildFields`, because a function cannot call a method. `BuildFields` is proved equal to `Fields`.
- Format.FormatAnnotations: does not build the count text before the loop as the code does. A failure inside the loop discards it either way, so the result is the same.
- The dictionaries' `"type"` keys are the constructors of `Block` and `TextType`. Dictionary key order is not modelled.
