# redacty in Dafny

A model of the core of redacty, a tool that anonymises email addresses
stored in a PostgreSQL text column. It covers three layers of
`redacty/redacty.py`:

- **`anonymize_email`** (module `Redactor`, on top of `EmailPattern` and
  `Strings`). The email pattern is applied with `re.match`. An address that
  ends with the excluded domain is exempt. Other addresses are masked with
  `re.sub`, which turns every maximal run of `[a-zA-Z0-9._%+-]` into one `*`.
- **The per-record rewriter** (module `Rewriter`). A left-to-right,
  non-overlapping `re.findall` scan uses the same pattern with the lookahead
  `(?!excluded)` after the `@`. Each match goes through `anonymize_email`,
  and when that returns a non-empty mask, every occurrence of the match is
  replaced with `str.replace`.
- **`anonymize_records`** (module `Orchestrator`) works as follows:
  - it rejects `days <= 0`;
  - it issues the SELECT and counts every fetched record;
  - it issues an UPDATE for each record whose body changed;
  - it then commits after an affirmative reply, rolls back on any other
    reply, or reports that there were no records.

  The database is a `Connection` class. It holds the committed table, the
  writes of the open transaction (which commit publishes and rollback
  discards), and the number of statements executed. The method
  `AnonymizeRecords` is proved against the specification functions `Staged`
  and `Changed`.

The pattern `\b[A-Za-z0-9._%+-]+@[A-Za-z0-9.-]+\.[A-Z|a-z]{2,}\b` is written
out as character classes:
- `InClass` with `Local`, `Domain`, `Tld` and `Word`, where the TLD class
  keeps the literal `|` of the source;
- the predicate `IsEmailAt`, which says when the pattern matches at a given
  position with a given split;
- the recogniser `MatchAt`, which follows Python's backtracking order (the
  longest domain run first, then the longest TLD run for that dot).

`MatchAt` is proved to return a match exactly when one exists, and to return
the one the engine reaches first. The scan works over `Attempts(s, guard)`,
the result of `MatchAt` at every position.

`\b` uses ASCII word characters, `[A-Za-z0-9_]`. The excluded domain in the
lookahead is read as a pattern in which `.` stands for any character except
a newline and every other character stands for itself, matching the
source's unescaped `format` of the domain into the pattern.

One would expect rewriting to be idempotent and never to redact part of an
address. The code has neither property, and module `Quirks` proves a
counterexample to each:
- "x@y.zz.a@b.cc" rewrites to "*@*.a@b.cc". The scan's second match,
  ".a@b.cc", starts with the dot, so `re.match` finds no word boundary at its
  start and `anonymize_email` returns None. A second rewrite then finds
  "a@b.cc" and masks it.
- "a@b.cc a@b.ccc" rewrites to "*@* *@*c". `str.replace` of the first match
  also hits the front of the second, longer address. When the second match's
  turn comes, it no longer occurs, so the final "c" survives.

Module `Scenarios` restates examples of `tests/test_redacty.py` over the
model:
- the three `anonymize_email` cases;
- the `find` cases of lines 79 and 80;
- the `replace_all` case that masks one address in a sentence;
- the `anonymize_records` run over the four test rows with an affirmative
  reply.

It also runs `anonymize_records` on three cases of its own, for branches the
tests do not reach: a declining reply on a one-row table, an age of zero
days, and an age of a million days, which reaches back before the first
date Python can represent.

## Model

| member | source | states |
|---|---|---|
| Strings.InClass | redacty/redacty.py:17-19 | the character classes of the pattern: Local `[A-Za-z0-9._%+-]` (also the class `re.sub` masks), Domain `[A-Za-z0-9.-]`, Tld, the ASCII letters plus the bar character that the source's TLD class holds as a literal, and Word, the ASCII `\w` of `\b` |
| Strings.IsBoundary | redacty/redacty.py:17 | `\b` at a position: exactly one of the characters before and at it is a word character, the text's ends counting as non-word |
| Strings.EndsWith | redacty/redacty.py:18 | `str.endswith`: the suffix is no longer than the text and equals its last characters |
| Strings.Replace | redacty/redacty.py:62 | `str.replace`: occurrences replaced left to right without overlap, scanning on after each replacement; an empty pattern inserts the replacement before every character and at the end |
| Strings.RunEnd | redacty/redacty.py:17 | the greedy `+` run of a class: every character before the end is in the class, the one at the end is not, and no longer all-in-class prefix exists |
| Strings.EmptySuffixEndsEverything | redacty/redacty.py:18 | `endswith("")` holds for every text |
| Strings.ReplaceAbsent | redacty/redacty.py:62 | `str.replace` of a non-empty string that does not occur returns the text unchanged |
| Strings.ReplacePrefix | redacty/redacty.py:62 | up to the first character of the replacement, the replaced text agrees with the original character for character |
| Strings.ReplaceKeepsAbsent | redacty/redacty.py:62 | after replacing pat by rep, t does not occur, provided t is pat or was absent and the two cannot glue (rep[0] not in t, t[0] not in rep) |
| Strings.ReplaceUniqueMarker | redacty/redacty.py:62 | a pattern holding a character that occurs nowhere else in the text is replaced exactly where it stands: a + pat + b becomes a + rep + b |
| EmailPattern.GuardMatchesAt | redacty/redacty.py:57 | the body of the lookahead `(?!excluded)` matches at a position: the excluded domain read as a pattern in which `.` is any character except a newline and every other character is literal |
| EmailPattern.IsEmailAt | redacty/redacty.py:57 | the shape of a match: `\b`, a non-empty local run, `@`, the lookahead failing when a guard is given, a non-empty domain run, the dot, at least two TLD characters and a closing `\b` |
| EmailPattern.TldFits | redacty/redacty.py:17 | the TLD part of the pattern: a dot, then at least two TLD characters up to the end, and a word boundary there |
| EmailPattern.Preferred | redacty/redacty.py:17 | the order in which the backtracking engine reaches splits: a later dot first, and for the same dot a later end |
| EmailPattern.TryTld | redacty/redacty.py:17 | the TLD run with its closing `\b`, tried from the longest run down: the result is a TLD end with a word boundary, and it is the largest such end, None exactly when there is none |
| EmailPattern.TryDot | redacty/redacty.py:17 | the dot positions tried from the right: the split returned fits the TLD rule and is preferred over every other split with the same `@` and an earlier or equal dot |
| EmailPattern.MatchAt | redacty/redacty.py:17-18 | the pattern at a position: a match exactly when some split satisfies IsEmailAt, and then the split the backtracking order reaches first |
| EmailPattern.NoAtNoMatch | redacty/redacty.py:17 | a text without `@` holds no match at any position |
| EmailPattern.EmptyGuardBlocks | redacty/redacty.py:57 | with an empty excluded domain the lookahead `(?!)` always fails, so the scanning pattern never matches |
| Redactor.Mask | redacty/redacty.py:19 | the mask holds no local-part character, is no longer than the input, is empty only for the empty input, and starts with `*` when the input starts with a local-part character |
| Redactor.MaskRun | redacty/redacty.py:19 | a non-empty run of local-part characters masks to a single `*` |
| Redactor.MaskKeepsOthers | redacty/redacty.py:19 | a text without local-part characters is its own mask |
| Redactor.MaskIdempotent | redacty/redacty.py:19 | masking a mask changes nothing |
| Redactor.MaskKeepsOrder | redacty/redacty.py:19 | apart from the `*` it writes, the mask keeps exactly the input's characters outside the local-part class, in order |
| Redactor.MaskSeparated | redacty/redacty.py:19 | a character outside the class splits the mask: Mask(x + [c] + y) == Mask(x) + [c] + Mask(y) |
| Redactor.MaskAddress | redacty/redacty.py:19 | an address made of local-part characters around one `@` masks to exactly "*@*" |
| Redactor.AnonymizeEmail | redacty/redacty.py:7-21 | a value exactly when the pattern matches at index 0 and the email does not end with the excluded domain |
| Redactor.ExcludedSuffixExempt | redacty/redacty.py:18-21 | an email ending with the excluded domain yields None |
| Redactor.EmptyExclusionExemptsAll | redacty/redacty.py:18-21 | an empty excluded domain exempts every email |
| Redactor.AnonymizedIsMask | redacty/redacty.py:18-19 | when a value is returned it is the mask of the email: non-empty, starting with `*`, no longer than the email, free of local-part characters |
| Rewriter.Scan | redacty/redacty.py:58 | the tokens of the scan lie after its start and within the text, in left-to-right order, without overlap |
| Rewriter.ScanSound | redacty/redacty.py:58 | every token is the match the pattern yields at the token's start |
| Rewriter.ScanSkips | redacty/redacty.py:58 | positions where the pattern fails are passed over |
| Rewriter.ScanCovers | redacty/redacty.py:58 | the scan misses nothing: every position at which an attempt matches lies inside a reported token |
| Rewriter.Tokens | redacty/redacty.py:57-58 | the tokens of `re.findall` with the lookahead lie within the body, in order, without overlap |
| Rewriter.TokensSound | redacty/redacty.py:57-58 | each token satisfies the email shape with the lookahead (word boundary at its start, the excluded domain not right after its `@`) and is the split the engine reaches first there |
| Rewriter.TokensCover | redacty/redacty.py:57-58 | every position at which the guarded pattern matches lies inside a token |
| Rewriter.FindAll | redacty/redacty.py:58 | `re.findall`: the texts of the scan's tokens, in order; FindAllSound and TokensCover state what these are |
| Rewriter.FindAllSound | redacty/redacty.py:57-58 | every string `re.findall` reports is the text from some position p to the end of the match at p, where that match satisfies IsEmailAt with the lookahead and is what MatchAt returns at p |
| Rewriter.FindAllCandidates | redacty/redacty.py:58 | every match starts with a local-part character and contains no `*` |
| Rewriter.FindAllEmpty | redacty/redacty.py:58 | a body in which the guarded pattern matches nowhere yields no matches |
| Rewriter.EmptyExclusionFindsNothing | redacty/redacty.py:57-58 | with an empty excluded domain the scan finds nothing |
| Rewriter.FindAllSingle | redacty/redacty.py:57-58 | a body whose only `@` belongs to the match x, preceded by words ending in a separator, yields exactly [x] |
| Rewriter.GuardedAtBlocks | redacty/redacty.py:57 | a body with a single `@` directly followed by the excluded domain holds no match of the scanning pattern |
| Rewriter.Step | redacty/redacty.py:60-62 | one iteration of the inner loop: the match is replaced by its mask when `anonymize_email` returns a non-empty value, and the body is kept otherwise |
| Rewriter.Replaced | redacty/redacty.py:59-62 | the inner loop: Step applied for each match in the order of the scan |
| Rewriter.Rewrite | redacty/redacty.py:57-62 | the rewrite of one record's body: Replaced over the matches of the guarded scan |
| Rewriter.ReplacedUnchanged | redacty/redacty.py:59-62 | when no match is anonymised, the body is returned exactly as it was |
| Rewriter.StepReplaces | redacty/redacty.py:60-62 | an anonymised match is replaced everywhere by its mask |
| Rewriter.StepKeepsAbsent | redacty/redacty.py:60-62 | after one step, an anonymised candidate, or a candidate that was absent, does not occur |
| Rewriter.ReplacedKeepsAbsent | redacty/redacty.py:59-62 | a candidate absent from the body stays absent through all later replacements |
| Rewriter.ReplacedRemovesAnonymised | redacty/redacty.py:59-62 | every occurrence of every anonymised candidate is gone from the result, not only the matched one |
| Rewriter.ReplaceMatches | redacty/redacty.py:59-62 | the inner loop computes Replaced; with no anonymised match it returns the body unchanged, and no anonymised candidate occurs in its result |
| Rewriter.RewriteRemovesAnonymised | redacty/redacty.py:57-62 | after rewriting, no anonymised match of the scan occurs anywhere in the body |
| Rewriter.RewriteNoEmailUnchanged | redacty/redacty.py:57-62 | a body without an email-shaped token is left unchanged |
| Rewriter.RewriteEmptyExclusionUnchanged | redacty/redacty.py:57-62 | with an empty excluded domain every body is left unchanged |
| Orchestrator.StageOne | redacty/redacty.py:53-67 | one record: when its rewritten body differs and its id is a row, the write of that body under the id; otherwise no write |
| Orchestrator.Staged | redacty/redacty.py:50-67 | the transaction's writes after the records are processed in fetch order |
| Orchestrator.Changed | redacty/redacty.py:65-67 | the number of records whose rewritten body differs, i.e. of UPDATE statements |
| Orchestrator.StagedWithinTable | redacty/redacty.py:65-67 | writes land only on rows of the table |
| Orchestrator.StagedUntouched | redacty/redacty.py:50-67 | records with other ids leave the write for an id as it was |
| Orchestrator.StagedExactly | redacty/redacty.py:50-67 | with distinct ids, a record is written exactly when its row exists and its rewritten body differs from the fetched body, and the value written is the rewritten body |
| Orchestrator.StagedOnlyRecords | redacty/redacty.py:50-67 | every written id belongs to an earlier write or to a fetched record |
| Orchestrator.ChangedAtMost | redacty/redacty.py:65-67 | there are no more UPDATE statements than records |
| Orchestrator.Lower | redacty/redacty.py:71 | `str.lower` on ASCII: A to Z become a to z and every other character is kept |
| Orchestrator.IsYes | redacty/redacty.py:71 | the reply counts as affirmative when its lower-case form is "y" |
| Orchestrator.IsYesExactly | redacty/redacty.py:71 | `reply.lower() == 'y'` holds exactly for "y" and "Y" |
| Orchestrator.Connection.constructor | redacty/redacty.py:24 | the connection handed in: the table as committed, no open writes, no statement executed |
| Orchestrator.Connection.Select | redacty/redacty.py:46-47 | the SELECT is one statement and changes no row |
| Orchestrator.Connection.Update | redacty/redacty.py:66-67 | the UPDATE is one statement; it writes the body under an existing id in the open transaction and leaves the committed table alone |
| Orchestrator.Connection.Commit | redacty/redacty.py:72 | the transaction's writes become the table, which keeps its ids |
| Orchestrator.Connection.Rollback | redacty/redacty.py:75 | the transaction's writes are discarded |
| Orchestrator.ThresholdOverflows | redacty/redacty.py:41-42 | `today - timedelta(days=days)` raises OverflowError: the age exceeds timedelta's 999999999 days, or the threshold would fall before 0001-01-01 |
| Orchestrator.OverflowIsDateBound | redacty/redacty.py:41-42 | for any date Python can represent, the threshold overflows exactly when the age is at least today's ordinal |
| Orchestrator.AnonymizeRecords | redacty/redacty.py:24-87 | the outcomes: days <= 0 gives the ValueError with no statement; an overflowing threshold gives the uncaught OverflowError with no statement; a failed SELECT gives the database error; otherwise one SELECT plus one UPDATE per changed record, then commit of Staged with the count of all fetched records on an affirmative reply, rollback otherwise, and "no records" with neither when nothing was fetched |
| Orchestrator.Decimal | redacty/redacty.py:73 | the printed count is a non-empty string of decimal digits |
| Orchestrator.DecimalRoundTrip | redacty/redacty.py:73 | the printed count reads back as the count, with no leading zero |
| Orchestrator.Message | redacty/redacty.py:73-86 | the one line printed for each outcome: the count of records anonymised, the cancellation, the absence of records, the ValueError text and the database error; nothing for the OverflowError, which leaves the function |
| Scenarios.ExcludedAddressKept | tests/test_redacty.py:63 | "test@example.com" under "example.com" yields None |
| Scenarios.SubdomainExempt | redacty/redacty.py:18 | "a@foo.example.com" under "example.com" yields None |
| Scenarios.AddressMasked | tests/test_redacty.py:64 | "hello.world@gmail.com" under "yahoo.com" yields "*@*" |
| Scenarios.NonAddressKept | tests/test_redacty.py:65 | "invalid.email" yields None |
| Scenarios.SentenceFound | tests/test_redacty.py:79 | the scan of the sentence finds exactly "hello.world@gmail.com" |
| Scenarios.NoAddressFound | tests/test_redacty.py:80 | "this wont work, invalid.email, you kno" yields no match under any excluded domain |
| Scenarios.SingleMatchReplaced | redacty/redacty.py:59-62 | one anonymised match whose `@` is the body's only one is replaced in place by its mask |
| Scenarios.SentenceRewritten | tests/test_redacty.py:96-101 | the sentence with "hello.world@gmail.com" becomes "ok well this should work *@* shouldn't it" |
| Scenarios.SecondRowFound | tests/test_redacty.py:113 | the scan of row 2 finds exactly its one address |
| Scenarios.SecondRowRewritten | tests/test_redacty.py:129 | row 2 is rewritten to "Another test email to *@*" |
| Scenarios.FirstRowKept | tests/test_redacty.py:126 | row 1, whose address is under the excluded domain, is left unchanged |
| Scenarios.ThirdRowKept | tests/test_redacty.py:132 | row 3, which holds no `@`, is left unchanged |
| Scenarios.MiddleRecordStaged | redacty/redacty.py:50-67 | of three records only the middle one changes, giving one write under its id |
| Scenarios.ConfirmedRun | tests/test_redacty.py:109-135 | the run with 30 days, "example.com" and reply "y" reports 3 records, issues two statements, and changes only row 2 |
| Scenarios.DeclinedRun | redacty/redacty.py:74-76 | a one-row table holding row 2, answered "n": the run is cancelled and the table keeps its row |
| Scenarios.DefaultAgeRefused | redacty/redacty.py:38-39 | an age of zero days prints the ValueError message and issues no statement |
| Scenarios.OverlongAgeEscapes | redacty/redacty.py:41-42 | on 2024-01-01 an age of a million days ends in the OverflowError before any statement |
| Quirks.RewriteNotIdempotent | redacty/redacty.py:57-62 | "x@y.zz.a@b.cc" under "example.com" rewrites to "*@*.a@b.cc", and that rewrites again to "*@*.*@*", so rewriting twice differs from rewriting once |
| Quirks.PartialRedaction | redacty/redacty.py:59-62 | "a@b.cc a@b.ccc" under "example.com" rewrites to "*@* *@*c": replacing the first match also replaces the front of the longer second address, leaving its last character |

## Left out

- The age filter and the server-side filter of the SELECT (redacty/redacty.py:41-43: the threshold date itself, `DATE(created_at) <= %s`, and the PostgreSQL `~*` pre-filter with its unescaped lookahead). What the SELECT returns, or its failure, is an input (`Fetch`). For the test rows the real filter would return row 2 alone. The real run would then report one record ("1 records anonymized."). `Scenarios.ConfirmedRun` feeds rows 1 to 3, so it reports `Anonymized(3)` and shows the rewriter itself leaving rows 1 and 3 alone. The final table is the same either way.
- The SQL text of the UPDATE (redacty/redacty.py:66), with its quoting and injection hazards, is modelled as an abstract write of (id, body). An UPDATE for a missing id counts as a statement and changes no row.
- `input()`, `print()`, `cursor.close()` and the prompt text (redacty/redacty.py:70); the reply is a parameter, and each printed line is `Message(outcome)`.
- Driver behaviour: the model covers a `psycopg2.Error` only as a failure of the SELECT. Failures of an UPDATE, a commit or a rollback are not modelled.
- Full Python regex semantics: Unicode `\b`, and regex metacharacters other than `.` in the excluded domain, are not modelled.
- The command-line block (redacty/redacty.py:91-113), argparse, `psycopg2.connect` and `conn.close`. Line 110 calls `anonymize_records` with three arguments where five are required, so Python would stop there with a TypeError. `Scenarios.DefaultAgeRefused` calls the function directly with the command line's default age.
- `tests/test_redacty.py` imports `find` and `replace_all` and passes `skip_confirm`, none of which exists in redacty/redacty.py. The scenarios use the model's `FindAll` and `Replaced` instead. Of the `find` cases, those at tests/test_redacty.py:79 and :80 are restated (`Scenarios.SentenceFound` with the excluded domain "example.com", `Scenarios.NoAddressFound` for every excluded domain). The case at lines 76-77 is not, because it expects "test@example.com" to be found, which depends on the unknown exclusion argument of `find`.
- `Orchestrator.Lower`: lowers ASCII letters only, where Python's `str.lower` also lowers non-ASCII letters. It is used only for the comparison with "y".
- Integer width matters in one place, the threshold `today - timedelta(days=days)` of redacty/redacty.py:41-42. The OverflowError it raises for a large age is modelled as the outcome `DateOverflow`, with no statement executed. The date itself is the input `today`, a proleptic Gregorian ordinal, because the clock is not modelled. The count and the ids are unbounded, as Python's integers are.
