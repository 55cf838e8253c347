# Verification of the shared CI controls

A Dafny model of the parts of this repository's CI controls that carry real algorithms, with proofs
of what their callers rely on.

* **The accepted-set window** (`Reference`, `Transition`, `Releases`, `Verdict`, `Floor`, `Editors`).
  The reference file holds a `current` projection of the common.v1 components and at most one of
  `next` and `previous`. Each release may move it by one step: stage, abandon, promote, close,
  relabel, demote or reopen. The model has the parser, the step check, the walk over release history
  that authorises a reopen, the verdict on a service's published spec, the pinned floor and the
  editors. The theorems are about whole release histories: nothing becomes current or previous that
  the fleet could not have adopted before, no step but an abandon or a close makes a conforming spec
  fail, and every step but a relabel can be undone.
* **Layout-preserving lexers** (`Lines`, `Segments`, `GoLexer`, `GatewayLexer`, `FunctionSpan`, `RateLimit`,
  `OrgMask`, `OrgIdentifiers`). One-pass state machines that blank comments and literals. Each is proved equal to
  a reference that cuts the text into tokens and renders each token; then the positions its callers
  rely on are proved to agree.
* **The SQL scanners** (`SqlLexer`, `SqlStatements`, `CreateTable`, `SqlColumns`, `GuardedTable`). Two scanners that must agree about
  dollar-quoting, and the chain of offsets from a raw migration to the line a column is reported on.
* **The Dockerfile argument expander** (`ArgExpansion`, `ArgTemplates`, `HubTwin`, `BuildContexts`).
  A recursive-descent expander with an explicit unknown value, driven by the ARG and FROM
  instructions of a file.
* **The coverage ratchet** (`CoverageRatchet`). A recorded floor with a band around it.

## Conventions

* Texts are sequences of characters and `\n` is the only line separator.
* A JSON value is compared by value, which is what equal canonical text means. A scalar other than a
  string matters to the checks only by its text and its truth value.
* A release history is a sequence, oldest first, of releases that are missing, unusable or hold a
  window. A run begins with any releases that hold a single set, replaced in place at will, or with a
  new artifact, and goes on with releases that each pass the step check.
* Versions are triples read from text; different texts can spell one triple, because the pattern
  allows leading zeros and a final newline.
* The unknown value of an argument and an argument declared without a value are constructors of their
  own instead of a sentinel string and a null.
* The rounded coverage is a parameter of each call, any multiple of 0.1 within 0.05 of the measured
  one, so the results hold however ties are rounded. Percentages are real numbers.
* A comparison by position (`sql.startswith(tag, i)`) replaces a comparison with a stored copy of a
  tag: the open dollar tag is the range where it was first read.

## Where the code and its text differ

* `floor_problems` reports a floor as lying between the accepted sets also when it spells the version
  of an accepted set with other leading zeros (`Floor.BetweenIsNotStrict`,
  `Floor.SameTripleDisagrees`); `Floor.ZeroMoreDisagrees` has an input.
* A new artifact passes the step check whatever it holds, also with a `previous` set that no release
  had as current; `Releases.SafetyNeedsNoEarlyPrevious` says that this is the only way to lose safety.
* The order "newer" is not transitive across a set that records no projector
  (`Reference.NewerIsNotTransitiveAcrossUnrecorded`); `Reference.NewerIsTransitiveExactly` says when it
  is.
* The rate-limit rule finds its headers in any case and counts them in one: Go's own spelling
  `X-Ratelimit-` is reported and not counted (`RateLimit.CountsHeadersExactly`,
  `RateLimit.CanonicalHeaderIsNotCounted`).
* The body of a CREATE TABLE is taken from the first parenthesis of the whole statement, which can be
  that of a guard (`SqlColumns.BodyIsTheTables`); `GuardedTable.GuardIsReadForTheTable` has an input.
* Blanking literals keeps the lines of a Go text exactly when no interpreted literal spans lines
  (`GoLexer.BlankedViewLayout`); `GoLexer.NewlineInLiteralIsLost` has an input.

## Model

| member | source | states |
|---|---|---|
| Reference.StableVersionReadsExactly | scripts/check-api-contract.py:140-142 | a text is read as a triple exactly when it is a `vX.Y.Z` tag whose three parts write the triple in decimal, whatever leading zeros they carry, with at most one newline after it |
| Reference.NumberReadsExactly | scripts/check-api-contract.py:140-142 | digits are read as `n` exactly when they are zeros followed by the decimal numeral of `n`, built from `n / 10` and `n % 10` |
| Reference.BeforeByWeight | scripts/check-api-contract.py:145-146 | triples are ordered as the numbers that their parts are the digits of, in any base larger than the minor and patch parts |
| Reference.SourceIsRead | scripts/check-api-contract.py:153-212 | the version and the module of a set: the text recorded, or the default when it is missing or empty |
| Reference.ProjectorIsRead | scripts/check-api-contract.py:153-212 | a set records a projector exactly when that member is there and not null, with its version and its module or the default module |
| Reference.MalformedProjectorIsRefused | scripts/check-api-contract.py:153-212 | a set whose projector is neither null nor an object with a version is refused |
| Reference.NewerIsAsymmetric | scripts/check-api-contract.py:231-248 | of two vintages at most one is newer than the other, and none than itself |
| Reference.NewerIsTransitiveExactly | scripts/check-api-contract.py:231-248 | two steps to a newer vintage make one, except exactly when the middle one records no projector and the outer two record projectors that moved back |
| Reference.NewerIsNotTransitiveAcrossUnrecorded | scripts/check-api-contract.py:231-248 | three vintages on which the order is not transitive |
| Reference.OrderAcceptedIsNewer | scripts/check-api-contract.py:231-248 | the parser's chain of direction tests accepts exactly the pairs in the order on vintages, read in the direction the role names |
| Reference.PairAcceptedIsNewer | scripts/check-api-contract.py:213-254 | a second set is accepted exactly when both sets name one module and stable versions, their components differ and the newer one is on the side its role says |
| Reference.PromotionKeepsOrder | scripts/check-api-contract.py:153-254 | {current A, next B} is well formed exactly when {current B, previous A} is |
| Reference.ParseAcceptsExactly | scripts/check-api-contract.py:153-254 | a document is read as a window exactly when it spells that window with known members only and the window is well formed |
| Transition.RelabelProblemsAreExact | scripts/check-api-contract.py:1911-1934 | a relabel of one set is without problems exactly when components and module stay and no recorded stable version is lost or moves back |
| Transition.StepClassification | scripts/check-api-contract.py:1845-1978 | for every base, head and history: the check passes with a step exactly when the declared step table allows that step, so it decides the table and no two steps overlap |
| Transition.RolesDetermineStep | README.md:640-648 | an accepted step is the one that the pair of role sets names when the roles differ, and otherwise unchanged exactly when nothing changed, or a relabel |
| Transition.FailureReports | scripts/check-api-contract.py:1911-1978 | a refused change is reported as no step exactly when the windows do not hold the same projections in the same roles; otherwise exactly the problems that some role has are reported |
| Transition.NoFlagDay | scripts/check-api-contract.py:1886-1934 | after every accepted step the base's current projection is still accepted, and the head's current projection was accepted before it |
| Transition.OnlyAbandonAndCloseWithdraw | scripts/check-api-contract.py:1886-1934 | a step keeps every accepted projection exactly when it is neither an abandon nor a close |
| Releases.PreviousBeforeClose | scripts/check-api-contract.py:2121-2160 | the walk over the releases, newest first, returns exactly the set that `ClosedPreviousExactly` characterises |
| Releases.ClosedPreviousExactly | scripts/check-api-contract.py:2121-2160 | history authorises a set exactly when some release carried it as previous beside these current components and every later release is unusable, or holds the same components without a previous set |
| Releases.PreviousWasCurrent | scripts/check-api-contract.py:1893-1934 | in any run that does not begin with a previous set, what a release keeps as previous was the current projection of an earlier release |
| Releases.CurrentWasSighted | scripts/check-api-contract.py:1845-1978 | in any such run, a current projection was current in the releases the run begins with or was next in an earlier release |
| Releases.NothingReadmittedUnseen | scripts/check-api-contract.py:2121-2160 | in any such run, every current and every previous projection was current in the releases the run begins with or was next in an earlier release |
| Releases.SafetyNeedsNoEarlyPrevious | scripts/check-api-contract.py:1845-1892 | a run from single sets or from a new artifact is safe at every release exactly when its first window has no previous set |
| Releases.EveryStepUndone | scripts/check-api-contract.py:1893-1909 | every accepted step but a relabel is taken back by an accepted step in the very next release |
| Releases.RelabelUndoneExactly | scripts/check-api-contract.py:1911-1934 | a relabel can be taken back exactly when no recorded version moved |
| Releases.ReopenAfterClose | scripts/check-api-contract.py:2172-2179 | after a close and any number of unchanged, relabel, stage and abandon releases ending with a single set, history yields exactly the dropped set and the reopen is accepted |
| Verdict.CompareToAcceptedSets | scripts/check-api-contract.py:1347-1417 | passes exactly when some accepted set is reproduced whole; the count is the minimum number of mismatches over the sets; with more sets "mix" is reported exactly when every component matches some set that defines it but no set matches whole |
| Verdict.Problems | scripts/check-api-contract.py:1361-1370 | the components of one set that the spec misses or projects otherwise |
| Verdict.AnyUnmatched | scripts/check-api-contract.py:1383-1401 | some component of some set is matched by no set that defines it |
| Verdict.EachMatchesSomeExactly | scripts/check-api-contract.py:1383-1401 | the sets together cover a spec exactly when it publishes each component that any of them defines as one of them projects it |
| Verdict.MoreSetsNeverFurther | scripts/check-api-contract.py:1403 | accepting more sets never increases the distance |
| Verdict.ComponentsCurrentFinding | scripts/check-api-contract.py:1324-1344 | the API-0007 count of a repository is its distance to the window, after the cases of a broken spec, no reference and no published component |
| Verdict.Api0007CountExactly | scripts/check-api-contract.py:1324-1417 | the count: 1 for a broken spec, 0 without a reference or a published component, else the least number, over the accepted sets, of components that the spec does not publish as the set projects them |
| Verdict.CountIsZeroExactly | scripts/check-api-contract.py:1324-1417 | nothing is counted exactly when the spec is sound and there is no reference, no published component, or an accepted set that the spec reproduces whole |
| Verdict.Evaluate | scripts/check-api-contract.py:1561-1586 | one record per control: skipped exactly when the control is not active, or for HTTP APIs only where there is none; otherwise failed, improved, frozen or passed exactly as the detector's count is above, below, equal and positive, or zero against the frozen count, which is 0 when none is frozen |
| Verdict.StepRaisesNoCount | scripts/check-api-contract.py:1561-1586 | no accepted step but abandon and close raises any repository's count or turns its verdict into a failure, whatever baseline it has frozen |
| Verdict.CurrentSpecStillPasses | scripts/check-api-contract.py:1324-1344 | a spec that reproduces the last release's current set counts zero after every accepted step |
| Verdict.WithdrawalRaisesExactly | scripts/check-api-contract.py:1324-1417 | an abandon or a close can raise some repository's count exactly when the kept set asks for more components anew than components of the withdrawn set that no spec can publish are no longer asked for |
| Floor.FloorAcrossStep | scripts/check-api-contract.py:1891-1909 | an accepted floor stays accepted through unchanged, stage, abandon, promote and reopen, and through close and demote exactly when it names the head's current version |
| Floor.FloorNeverNamesNext | scripts/check-api-contract.py:1777-1838 | a floor that names the next version is accepted only if current has that version too |
| Floor.ProblemsExactly | scripts/check-api-contract.py:1777-1838 | what is reported of a floor that names no set: unordered exactly when a version is not stable, above exactly when it follows every held version, below exactly when it precedes every one, and else between |
| Floor.BetweenIsNotStrict | scripts/check-api-contract.py:1777-1838 | for every well-formed window, exactly when the floor is reported as lying between the held versions |
| Floor.SameTripleDisagrees | scripts/check-api-contract.py:1818-1836 | in every well-formed window, a floor that names no accepted version but has the triple of a held one is reported as lying between |
| Floor.ZeroMoreDisagrees | scripts/check-api-contract.py:1818-1836 | the floor v01.0.0 with current v1.0.0 and next v2.0.0 is reported as lying between |
| Floor.FloorNamesMeasuredProjection | scripts/check-api-contract.py:1777-1838 | in any run an accepted floor names a held set, and that set's projection was current in that release or an earlier one |
| Editors.StageIsStage | scripts/check-api-contract.py:2277-2294 | staging gives a well-formed document exactly for a newer comparable vintage, and then it is the stage step |
| Editors.StagedExactly | scripts/check-api-contract.py:2277-2304 | staging adds the whole emitted document under `next`, comment included |
| Editors.PromotedExactly | scripts/check-api-contract.py:2297-2318 | promoting puts the staged document on top and everything else under `previous`, comments included |
| Editors.PromoteIsPromote | scripts/check-api-contract.py:2307-2318 | promoting a well-formed document that carries next is never refused and is the promote step |
| Editors.DropLeavesCurrent | scripts/check-api-contract.py:2321-2330 | dropping the extra set leaves current alone and is an abandon or a close |
| Editors.StageThenDropIsIdentity | scripts/check-api-contract.py:2277-2330 | stage and then drop next gives the document back |
| Editors.WholeWindowYieldsEmitted | scripts/check-api-contract.py:2297-2330 | stage, promote and drop previous give exactly the emitted document, comment included |
| Editors.ReferenceFile.Load | scripts/check-api-contract.py:257-275 | the cached verdict is the verdict on what the file holds now |
| Editors.ReferenceFile.Write | scripts/check-api-contract.py:2251-2260 | a well-formed result is written and the cache emptied; any other leaves the file as it was |
| Editors.ReferenceFile.StageNext | scripts/check-api-contract.py:2277-2294 | the exit code for each case and the file it leaves |
| Editors.ReferenceFile.PromoteNext | scripts/check-api-contract.py:2307-2318 | succeeds exactly for a well-formed file that carries next, and writes exactly the promoted document, comments included |
| Editors.ReferenceFile.DropSet | scripts/check-api-contract.py:2321-2330 | succeeds exactly for a well-formed file that carries the role, and writes the document without it |
| Lines.LineNumber | scripts/check-schema-lint.py:323-324 | the number of newlines before a line is its index |
| Lines.SplitLinesExactly | scripts/check-org-vocabulary.py:437 | the lines of a text are the only texts without newlines that make it up, with a newline after each but perhaps the last |
| GoLexer.QuoteCloseIsFirstUnescaped | scripts/check-api-contract.py:498-510 | a literal closes at its first quote that no unescaped backslash precedes |
| GoLexer.GrammarDeterminesToken | scripts/check-api-contract.py:458-529 | the lexical grammar of the Go specification (Comments, String literals, Rune literals) leaves exactly one token at a position, the one the segmentation takes |
| GoLexer.ViewShows | scripts/check-api-contract.py:458-529 | what the view shows of any token of that grammar: code stays, a comment is blank but for its newlines, a literal stays or shows its delimiters only, and a raw one its newlines too |
| GoLexer.MachineIsView | scripts/check-api-contract.py:458-529 | in both modes the one-pass state machine equals segmenting the text and rendering each token, also for tokens that are never closed |
| GoLexer.StripGoComments | scripts/check-api-contract.py:458-529 | the scanning loop returns the rendered segmentation |
| GoLexer.StrippedViewLayout | scripts/check-api-contract.py:458-529 | stripping comments keeps length and every newline, and each character stays or becomes a space |
| GoLexer.BlankedViewLayout | scripts/check-api-contract.py:498-506 | blanking literals too keeps every newline exactly when no interpreted literal spans lines |
| GoLexer.NewlineInLiteralIsLost | scripts/check-api-contract.py:498-506 | the text of a quote, a newline and a quote loses its newline to blanking |
| GoLexer.ViewsCompose | scripts/check-api-contract.py:458-529 | each mode is idempotent, and blanking after stripping comments equals blanking at once |
| GatewayLexer.StripGoComments | scripts/check-gateway-baseline.py:70-118 | the second implementation computes the same function as the first without blanking |
| FunctionSpan.EnclosingFunctionSpan | scripts/check-api-contract.py:422-438 | the span runs from the nearest opening line at or above the index to the nearest one below |
| FunctionSpan.OpensFunctionExactly | scripts/check-api-contract.py:345 | a line opens a function exactly when it begins with the word `func` |
| FunctionSpan.SpansTile | scripts/check-api-contract.py:422-438 | a span contains its index, every line in it has that span, and two different spans do not overlap |
| FunctionSpan.ViewsAligned | scripts/check-api-contract.py:820-862 | for Go text whose interpreted literals stay on one line, both views and the text have the same lines, and a span of line numbers covers the same region in each |
| RateLimit.StandardRatelimitFields | scripts/check-api-contract.py:820-868 | a line is reported exactly when the view with literals sets an X-RateLimit header there, in any case and with the spelling found, or the blanked view writes a 429 there in a function with a response writer and the view with literals sets no Retry-After in that function, whatever those three searches look for; the count is the number of reports whose path or header has the exact spelling `X-RateLimit` |
| RateLimit.ProhibitedExactly | scripts/check-api-contract.py:354-355 | a header is found exactly when it is the quoted first argument, `X-RateLimit-` in any case and then letters, digits and dashes, of the first call of Header, Set or Add that sets such a header |
| RateLimit.CountsHeadersExactly | scripts/check-api-contract.py:864 | the counted reports are the reports of headers exactly when every header or its path has that spelling and no path of a 429 report does; the two numbers agree exactly when as many headers are missed as 429 reports are counted |
| RateLimit.CanonicalHeaderIsNotCounted | scripts/check-api-contract.py:846-864 | a service that sets `X-Ratelimit-Limit` is reported, and the report is not counted as a header |
| OrgMask.QuoteCloseIsFirstUnescaped | scripts/check-org-vocabulary.py:333-416 | a literal closes at its first delimiter that no unescaped backslash precedes, newlines aside |
| OrgMask.GrammarDeterminesToken | scripts/check-org-vocabulary.py:333-416 | the lexical rules, with their precedence, leave exactly one token at a position, the one the segmentation takes |
| OrgMask.MaskShows | scripts/check-org-vocabulary.py:333-416 | what the mask shows of any token of those rules: code and newlines stay, all else is blank |
| OrgMask.SyntaxExactly | scripts/check-org-vocabulary.py:322-330 | which of `//`, `#` and `--` open a comment, by suffix, and where block comments and triple quotes are known |
| OrgMask.MachineIsMask | scripts/check-org-vocabulary.py:333-416 | the one-pass scanner equals segmenting the text and blanking comments and literals |
| OrgMask.MaskNonCode | scripts/check-org-vocabulary.py:333-416 | the scanning loop, with the comment tokens of the file's suffix, returns that mask |
| OrgMask.MaskLayout | scripts/check-org-vocabulary.py:333-416 | length and every newline stay, and each character stays or becomes a space |
| OrgMask.RegionsDelimited | scripts/check-org-vocabulary.py:333-416 | beside a word character of the code the mask shows what stands there in the raw text, so no word is cut |
| OrgIdentifiers.MatchAgrees | scripts/check-org-vocabulary.py:315-320 | where the mask shows the first character of a shape, the shape matches in the masked text exactly as in the raw text |
| OrgIdentifiers.MatchExactly | scripts/check-org-vocabulary.py:315-320 | a shape matches up to a place exactly when no word character stands before it, the text up to there has the shape, and no longer text has it |
| OrgIdentifiers.MatchesAreApart | scripts/check-org-vocabulary.py:437-439 | matches of one shape do not overlap, so searching from left to right finds all of them |
| OrgIdentifiers.MaskedFindingsAreRawFindings | scripts/check-org-vocabulary.py:437-450 | a finding in masked text is exactly a match of the raw text, at the same line and column with the same characters, that begins in code |
| OrgIdentifiers.ScanForIdentifiers | scripts/check-org-vocabulary.py:419-451 | the scan of a file reports exactly the matches of its raw text that begin in code when its suffix is scanned and no exception covers it, and nothing otherwise; skipping texts without the legacy term loses nothing |
| OrgIdentifiers.ScanIsRaw | scripts/check-org-vocabulary.py:419-451 | so what it reports is exactly the matches of the raw text that begin in code |
| SqlLexer.LiteralCloses | scripts/check-schema-lint.py:188-266 | a literal closes at its first quote with an even number of quotes before it and no quote after it |
| SqlLexer.GrammarDeterminesToken | scripts/check-schema-lint.py:188-266 | the lexical rules leave exactly one token at a position, the one the segmentation takes; a dollar-quoted body ends at the first repetition of its tag |
| SqlLexer.StripShows | scripts/check-schema-lint.py:188-266 | what the stripped text shows of any token of those rules: code and dollar-quoted bodies stay, comments are blank but for their newlines, of literals the quotes and newlines stay |
| SqlLexer.MachineIsStrip | scripts/check-schema-lint.py:188-266 | the one-pass scanner equals segmenting the SQL and rendering each token |
| SqlLexer.StripComments | scripts/check-schema-lint.py:188-266 | the scanning loop returns the rendered segmentation |
| SqlLexer.StripLayout | scripts/check-schema-lint.py:188-266 | length and every newline stay, and each character stays or becomes a space |
| SqlStatements.ScannersAgree | scripts/check-schema-lint.py:188-320 | the semicolons that split the stripped text are exactly those of the raw SQL outside comments, literals and dollar-quoted bodies, also when one is never closed |
| SqlStatements.CutsExactly | scripts/check-schema-lint.py:188-320 | by the lexical rules, a statement of the stripped text ends exactly at the semicolons of the raw SQL that are tokens of their own |
| SqlStatements.StatementsAreThePieces | scripts/check-schema-lint.py:269-320 | between two such semicolons lies exactly one statement, in order, unless all there is white space; only leading blank lines are dropped from it |
| SqlStatements.SplitFromTheStart | scripts/check-schema-lint.py:269-320 | the pass that tracks where a statement began yields the statements of the reference |
| SqlStatements.Statements | scripts/check-schema-lint.py:269-320 | each emitted statement is a contiguous slice of the text, with a final newline if it runs to the end, and carries the line it begins on |
| SqlColumns.Balanced | scripts/check-schema-lint.py:351-370 | the text up to the parenthesis that closes the one at the given place, or all the rest |
| SqlColumns.TableBodyOff | scripts/check-schema-lint.py:373-386 | the body of the first parentheses and the offset it begins at |
| SqlColumns.PartsAreTopLevel | scripts/check-schema-lint.py:332-348 | the parts are exactly the stretches between commas outside all parentheses, without a blank last one |
| SqlColumns.SplitTop | scripts/check-schema-lint.py:332-348 | the loop returns the texts of those parts |
| SqlColumns.NameInExactly | scripts/check-schema-lint.py:716-721 | a part names its first word, when white space and a type follow and it is no keyword of a table constraint |
| SqlColumns.Columns | scripts/check-schema-lint.py:705-729 | in a statement with a CREATE TABLE the loop with its running offset reports the columns in order, by the function that `ColumnsAreDefinitions` and `ReportedWhereTheyStand` characterise |
| SqlColumns.ColumnsAreDefinitions | scripts/check-schema-lint.py:705-729 | a column is reported exactly when a definition between the first parenthesis of the statement and the commas at depth one begins with its name |
| SqlColumns.BodyIsTheTables | scripts/check-schema-lint.py:373-386 | those are the table's own parentheses exactly when none opens before the CREATE TABLE and its name end |
| CreateTable.CreateExactly | scripts/check-schema-lint.py:390 | where a CREATE TABLE ends, word by word: with the name after IF NOT EXISTS if one stands there, else with the name after TABLE |
| CreateTable.FirstCreate | scripts/check-schema-lint.py:390 | the first such place of the statement is the one found |
| SqlColumns.DepthCounts | scripts/check-schema-lint.py:332-386 | the depth is the number of opening parentheses less that of closing ones |
| GuardedTable.GuardIsReadForTheTable | scripts/check-schema-lint.py:705-729 | from a CREATE TABLE inside `IF NOT EXISTS (SELECT 1 FROM t)` the code reports a column `select` and none of the table |
| SqlColumns.ReportedWhereTheyStand | scripts/check-schema-lint.py:705-729 | end to end: each column is reported under the name that stands in the raw file, on the raw line where it stands |
| ArgExpansion.BraceFoundExactly | scripts/base-image-build-contexts.py:210-226 | the brace found is the first that leaves none open, counting the unescaped `${` and `}` of the word, whatever the word is |
| ArgExpansion.ClosingBrace | scripts/base-image-build-contexts.py:210-226 | the loop returns that brace, and refuses exactly when there is none |
| ArgExpansion.Substitute | scripts/base-image-build-contexts.py:229-243 | what stands for `${...}`, operands expanded only when used and refusals included, by the function that `PrintThenExpand` ties to the POSIX table |
| ArgExpansion.Expand | scripts/base-image-build-contexts.py:176-207 | the loop, mutually recursive with the substitution, expands a word from left to right as far as its first refusal, by the same function |
| ArgExpansion.ExpansionRefines | scripts/base-image-build-contexts.py:176-253 | a word that expands without the unknown values expands to the same text whatever they are |
| ArgExpansion.BuildersNames | scripts/base-image-build-contexts.py:75-81 | the automatic arguments are the platform, system, architecture and variant of the build and of the target |
| ArgTemplates.ExpandsEveryWord | scripts/base-image-build-contexts.py:176-253 | expanding any word is evaluating the template it spells by the table of section 2.6.2 of the POSIX.1-2017 Shell Command Language, in nested operands too; it fails exactly when the evaluation consults an unknown value or comes to a malformed place |
| ArgTemplates.PrintRead | scripts/base-image-build-contexts.py:176-243 | a word is what its template prints exactly when no part is malformed and no bare name in braces has a newline after it |
| ArgTemplates.ReadPrint | scripts/base-image-build-contexts.py:176-243 | a printed template is read back |
| ArgTemplates.PrintThenExpand | scripts/base-image-build-contexts.py:176-253 | so expanding a printed template is evaluating it, and fails exactly when the evaluation consults an unknown value |
| ArgTemplates.EvalFailsExactly | scripts/base-image-build-contexts.py:246-253 | an evaluation fails exactly when it consults a value only the builder knows or comes to a malformed place |
| ArgTemplates.BracePast | scripts/base-image-build-contexts.py:210-226 | the search for a closing brace passes over a printed operand as a whole |
| HubTwin.ParseRender | scripts/base-image-build-contexts.py:66-73 | an official reference is taken apart as it was put together |
| HubTwin.RenderParse | scripts/base-image-build-contexts.py:66-73 | what is taken apart is official and gives the reference back |
| HubTwin.TwinExactly | scripts/base-image-build-contexts.py:271-284 | a reference has a twin exactly when it is `public.ecr.aws/docker/library/` and the name, `:` tag and `@` digest of an official image, and the twin is `docker-image://docker.io/library/` with the same name, tag and digest, or with `:latest` when it has neither |
| HubTwin.NameExactly | scripts/base-image-build-contexts.py:66 | a name is lower-case letters and digits with a dot, one or two underscores or a run of dashes between them |
| HubTwin.TagExactly | scripts/base-image-build-contexts.py:67 | a tag is at most 128 word characters, dots and dashes, and begins with a word character |
| HubTwin.DigestExactly | scripts/base-image-build-contexts.py:68 | a digest is an algorithm, in which every separator stands before a letter, a colon and at least 32 hexadecimal digits |
| BuildContexts.BuildContexts | scripts/base-image-build-contexts.py:287-377 | the run over the instructions, with nothing known of the builder, collects the redirects that `RedirectedExactly` and the warnings that `WarnedExactly` characterise, and redirects each reference to its twin; `BoundExactly` says what the arguments are |
| BuildContexts.RedirectedExactly | scripts/base-image-build-contexts.py:342-377 | a reference is redirected exactly when it is official and an instruction pulls it by a word that stands for it there and is no stage; a name is a stage exactly when an earlier FROM gives it |
| BuildContexts.WarnedExactly | scripts/base-image-build-contexts.py:297-377 | a word is warned of exactly when an instruction pulls it and its expansion is refused, with the reason; a reference exactly when such a word stands for it, it is on ECR Public and names no official image |
| BuildContexts.StageIsFirstAs | scripts/base-image-build-contexts.py:345-353 | the stage of a FROM is the word after its first `AS` |
| BuildContexts.BoundExactly | scripts/base-image-build-contexts.py:292-339 | at any place of a file a name has what the last ARG before the first FROM that binds it gives: the stated value, or its default expanded with the arguments before it, unknown if that is refused, or none; without one it is as at the start |
| BuildContexts.StatedValueWins | scripts/base-image-build-contexts.py:328-330 | a declared name that the caller states a value for has that value, whatever its default |
| BuildContexts.StartBinds | scripts/base-image-build-contexts.py:292-294 | at the start only automatic names are bound, to what is stated for them |
| BuildContexts.WordsExactly | scripts/base-image-build-contexts.py:344-345 | the words of a FROM are its tokens that do not begin with two dashes, in order |
| BuildContexts.UnquotedExactly | scripts/base-image-build-contexts.py:370 | a source loses the quotes at its two ends and nothing else |
| BuildContexts.ArgsFrozen | scripts/base-image-build-contexts.py:325-343 | no argument changes after the first FROM |
| BuildContexts.DeclaredRefines | scripts/base-image-build-contexts.py:328-339 | a declaration keeps the knowledge of the expander below that of the build |
| BuildContexts.UnknownsAreSound | scripts/base-image-build-contexts.py:287-377 | for every file and every assignment to the automatic arguments: a word resolved without them is resolved to the same reference with them, redirects are redirects of that build, and are all of them when no word was left unresolved |
| CoverageRatchet.FloorFile.LoadFloor | scripts/check_coverage_ratchet.py:65-86 | no floor exactly without a file; otherwise the recorded floor exactly when it is a percentage and, if it is 0, the reason is not blank, and else a refusal to trust the file |
| CoverageRatchet.KeptReasonExactly | scripts/check_coverage_ratchet.py:89-102 | a recorded reason is kept unless it is empty, and else replaced by the default one |
| CoverageRatchet.ReasonKept | scripts/check_coverage_ratchet.py:89-102 | along a run in which the floor moves, the reason once given stays |
| CoverageRatchet.FloorFile.Evaluate | scripts/check_coverage_ratchet.py:105-162 | a plain call exits 0 exactly when the threshold is reached and there is no file, or it is not and a trusted floor `f` has `f - 0.5 <= pct <= f + 2.0`, and never changes the file; a `--write` call exits 0 exactly when there is no file, or a trusted floor and coverage that reaches the threshold or `f - 0.5`, and the file it leaves is given |
| CoverageRatchet.ConvergesExactly | scripts/check_coverage_ratchet.py:65-162 | after a call that exits 0, a plain call at the same coverage exits 0 and changes nothing: always if no floor was written, else exactly when the rounded coverage is a percentage |
| CoverageRatchet.WriteConverges | scripts/check_coverage_ratchet.py:65-162 | for every measured percentage a successful `--write` call leaves a file that a plain call accepts unchanged |
| CoverageRatchet.FloorNeverDecreases | scripts/check_coverage_ratchet.py:131-148 | along any run of calls that exit 0 with a floor recorded the floor never decreases |
| CoverageRatchet.NoCompoundingDecay | scripts/check_coverage_ratchet.py:53-54 | along such a run a later measured coverage is at least any earlier one minus 2.5 points |
| CoverageRatchet.OneCall | scripts/check_coverage_ratchet.py:131-162 | each raise lifts the floor by more than 1.95 |
| CoverageRatchet.FewRaises | scripts/check_coverage_ratchet.py:140-148 | such a run has at most 51 raises, and at most 49 when no call measures more than 100 or the threshold is at most 100 |
| CoverageRatchet.RaisesAreReached | scripts/check_coverage_ratchet.py:140-148 | a run with 51 raises, and a run of percentages with 49 |
| CoverageRatchet.WholeDecay | scripts/check_coverage_ratchet.py:131-162 | a run whose coverage falls by the whole 2.5 points |

## Left out

- Git: tags, blobs, event bases and fetches; a release history is given as a sequence, and blob memoisation and the fallback to the last usable state of a commit have no counterpart.
- JSON and YAML text, file systems and directory walks; documents are given parsed, and the reference file and the floor file are one mutable field each.
- Reference.PairAcceptedIsNewer: all lists read as one text, and all objects as another, where the code calls `str()` on them. They are no version and no blank reason either way, but two sets whose `source.module` or projector module are different lists or different objects count as naming one module, and the code refuses that pair.
- Wording of diagnostics, lists of details and their capping; `floor_problems`, `transition_problems` and `compare_to_accepted_sets` return the kind of each problem instead.
- Reference.ParseAcceptsExactly: which of several refusals a malformed document gets is modelled and not characterised, because it is the order of the tests; that it is refused is characterised.
- Catalog loading, rendering of reports and documentation, argument parsing.
- Detectors that are one search with a message: the other API, DS, DM, SP, DOC, CID and GW controls.
- RateLimit.StandardRatelimitFields: the searches for a 429 write, a response writer and a Retry-After are parameters, any predicates on lines, because they are searches with a message; the wording of a report is left out except for the spelling by which reports are counted.
- The table's name, the declared type and the inline CHECK of a column, and columns of ALTER TABLE.
- How an exception of the vocabulary control matches a file: whether one does is a parameter of `OrgIdentifiers.ScanForIdentifiers`.
- Nested block comments and escape strings of PostgreSQL, which the scanner does not treat: properties are stated by the scanner's own lexical rules.
- Joining continuation lines and skipping heredocs, and finding declarations, `--from` flags and mounts in an instruction: `BuildContexts` starts from instructions with these parts.
- Character classes beyond ASCII for `\w`, `\d`, `isdigit` and changes of case.
- Line separators other than `\n` that `splitlines()` knows.
- Floating point: percentages are real numbers, and a coverage or a floor that is not a number counts as corrupt.
- The two flags and the open tag of `strip_comments`, and the quote and comment flags of `mask_non_code`, are one state each: the code never sets two of them at once.
- ArgTemplates.ReadPrint: stated for templates whose printed form is unambiguous (operand literals are no closing braces and no backslashes, no backslash stands just before a dollar sign that is not itself escaped, and nothing runs into a name or a plain dollar sign that it would belong to).
- ArgTemplates.PrintThenExpand: stated for the same templates; `ArgTemplates.ExpandsEveryWord` covers every word.
