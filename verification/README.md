# TMX core, modelled and verified

TMX is a task runner whose core crate decides everything that can be decided without I/O: it reads
`${{ … }}` expressions, splices them into templates, merges task outputs into a capped state, fans tasks out
over a bounded scheduler, scores evaluations, masks secrets, cancels in two phases, and keeps and prunes
records of past runs. This project models that code in Dafny and proves what its design promises of it.

Reading order:

| files | subject |
|---|---|
| `Wrappers`, `Limits`, `Alphabets`, `Utf8`, `Strings`, `Numerals` | shared vocabulary: results, engine limits, letters and digits, `&str` bytes, substring search, decimal text and its reading |
| `Lexer`, `Syntax`, `Parser`, `Grammar` | tokens, the layered grammar, the precedence-climbing parser, and their agreement |
| `Printer` | a printer for syntax trees, and the round trip with the parser in both directions |
| `Lint`, `Agreement` | the second, independent reader of the language, and when it agrees with the parser |
| `Json`, `JsonReader`, `Matcher`, `Evaluator` | JSON values and their compact text, a reader that undoes it, the matcher's relations, expression evaluation |
| `Template`, `Encoders` | the template layer, base64, URI and form encoding |
| `Merge`, `Mask` | the capped, depth-gated state; the secret masker |
| `Cancel`, `CancelProtocol` | the two-phase token, and all interleavings of guards and cancellers on it |
| `Scheduler`, `FanOut`, `Scores` | bounded fan-out against the serial loop, `map`, scores and their summary |
| `Calendar`, `Timestamps`, `RunStore` | civil dates, instants as text, the capped log, pruning and filing of runs |
| `Imports` | the two import-cycle walks |

Conventions. A Rust `&str` is a `Bytes` value, one character for each byte, valid UTF-8 where the code relies
on it. Code that works with loops or fields is a `method` or a `class`, proved against a function; lemmas then
say what that function means. Concurrency is a transition system whose steps are the code's lock sections,
polls and completions, and theorems about it hold of every run. The engine limits carry the repository's
values. Calls into libraries that only read are parameters: which lexemes `serde_json` takes as numbers and
what numbers they are, `str::trim`, and the work of a fanned-out unit.

Where the code and its documentation part ways, the model follows the code:

- The lint scanner skips blanks and tabs between a root and its fields, the tokenizer skips line breaks too.
  So the scanner misses a read that a line break cuts (`Agreement.LineBreakHidesRead`), and
  `Agreement.ScannerAgreesWithParser` says exactly when it does not.
- Masking promises that no registered secret survives. A secret that can share bytes with a placeholder may: one
  inside the placeholder's word survives its own redaction (`Mask.PlaceholderPartLeaks`), and one that starts or
  ends with a piece of the placeholder can be completed by it. Secrets that stand apart from the placeholder
  never leak (`Mask.ScrubbedIsClean`); the condition is exact for secrets without brackets
  (`Mask.NoLeakIffPlaceholderClear`), and `Mask.LoneSecretLeaksIff` gives the exact one for any single secret.
- A template that starts with an expression and ends in a stray `}}` is evaluated as one expression, tail
  included (`Template.LoneFormIff`, `Template.LoneExpressionKeepsType`).
- A retention longer than the time since the epoch cuts off at the first second of 1970 but keeps the milliseconds
  of the present instant (`Timestamps.CutoffIsRetentionWindow`).
- The truncation marker of a log lies outside its byte cap (`RunStore.LogIsLongestFit`).

## Model

| member | source | states |
|---|---|---|
| Lexer.LexString | crates/tmx-core/src/interpolate.rs:244-287 | the quote-to-quote loop decodes exactly the specified literal, escapes included, and stops past its closing quote, or fails as specified |
| Lexer.LexNumber | crates/tmx-core/src/interpolate.rs:291-323 | sign, digits, fraction and exponent are read as far as possible; a lone sign or a lexeme that is no JSON number is refused |
| Lexer.LexToken | crates/tmx-core/src/interpolate.rs:134-226 | one round of the tokenizer takes the specified token |
| Lexer.Tokenize | crates/tmx-core/src/interpolate.rs:131-230 | the token loop yields the specified tokens of the whole text, or the first error |
| Lexer.ClassesAreListed | crates/tmx-core/src/interpolate.rs:134-240 | white space, digits, identifier bytes and quotes are exactly the listed characters |
| Utf8.EncodedIsWhole | crates/tmx-core/src/interpolate.rs:278-284 | every encoded code point (section 3 of RFC 3629) is one whole character of the width its first byte announces |
| Parser.TokenParser.Advance | crates/tmx-core/src/interpolate.rs:366-372 | hands out the token at the position and moves past it; at the end it stays |
| Parser.TokenParser.Expect | crates/tmx-core/src/interpolate.rs:375-380 | succeeds exactly on the expected token |
| Parser.TokenParser.ParseBp | crates/tmx-core/src/interpolate.rs:396-448 | with its reassigned left operand and moving position it returns the expression of the derivation that climbing finds, and where it ends |
| Parser.TokenParser.ParsePrefix | crates/tmx-core/src/interpolate.rs:400-430 | the operand before the infix loop, keywords and paths told apart |
| Parser.TokenParser.ParseSteps | crates/tmx-core/src/interpolate.rs:452-473 | the loop over dots and brackets returns the longest run of steps |
| Parser.TokenParser.ParseStep | crates/tmx-core/src/interpolate.rs:455-469 | one round of that loop |
| Parser.ParseSource | crates/tmx-core/src/interpolate.rs:331-351 | length guard, tokens, tree, and nothing left over |
| Grammar.ClimbSound | crates/tmx-core/src/interpolate.rs:396-448 | what climbing at a binding power returns is a derivation of exactly the tokens it consumed, of that power's layer, within the depth limit; it stops before an operator that binds looser |
| Grammar.ClimbComplete | crates/tmx-core/src/interpolate.rs:396-448 | any derivation that nests within the limit is the one climbing finds |
| Grammar.ParserMatchesGrammar | crates/tmx-core/src/interpolate.rs:331-486 | a token stream parses to a derivation if and only if the layered, left-associative grammar derives it with nesting within the limit |
| Grammar.GrammarIsUnambiguous | crates/tmx-core/src/interpolate.rs:479-486 | no token stream has two derivations |
| Grammar.ErrorsNameTheirCause | crates/tmx-core/src/interpolate.rs:384-392 | a token stream with a derivation is refused only as too deep, exactly when it nests past the limit, and never as malformed |
| Printer.PrintThenParse | crates/tmx-core/src/interpolate.rs:131-486 | a printable expression, printed with brackets where binding powers ask for them, parses back to itself |
| Printer.ParseThenPrint | crates/tmx-core/src/interpolate.rs:131-486 | every expression the parser accepts is printable, so printing and parsing it again gives the same expression whenever the printed text stays within the limits |
| Printer.QuotedTextIsRead | crates/tmx-core/src/interpolate.rs:244-287 | any text, written in either kind of quotes with all its escapes or with only the necessary ones, lexes as one string token that holds the text |
| Printer.EscapesAreListed | crates/tmx-core/src/interpolate.rs:254-277 | a backslash may stand before the seven listed letters and before no other |
| Printer.JsonNumberIsTaken | crates/tmx-core/src/interpolate.rs:289-323 | every JSON number (section 6 of RFC 8259) is one lexeme, sign, fraction and exponent included |
| Printer.TokenIsItsText | crates/tmx-core/src/interpolate.rs:134-226 | every token but a string stands for exactly the bytes it was read from |
| Lint.SkipSpaces | crates/tmx-core/src/lint.rs:384-389 | stops at the first byte that is neither blank nor tab |
| Lint.SkipString | crates/tmx-core/src/lint.rs:393-407 | stops past the closing quote, stepping over escaped bytes |
| Lint.ReadField | crates/tmx-core/src/lint.rs:366-381 | reads one dotted name, or nothing and does not move |
| Lint.ReadRoot | crates/tmx-core/src/lint.rs:350-362 | an identifier is a read only as one of three roots followed by a dotted name |
| Lint.ExtractRefs | crates/tmx-core/src/lint.rs:310-345 | the byte loop lists the specified reads, in source order |
| Lint.SpacesAreListed | crates/tmx-core/src/lint.rs:339-389 | what the scanner's two loops skip as white space, listed |
| Agreement.TreeReads | crates/tmx-core/src/lint.rs:302-309 | the reads visible in a derivation's tokens are those of its expression, nested indices included, member names and strings left out |
| Agreement.PlainReadsAreAllReads | crates/tmx-core/src/lint.rs:383-389 | a reader that gives up at line breaks finds all the reads of the tokens if and only if no line break stands inside a checked read |
| Agreement.ScanIsPlain | crates/tmx-core/src/lint.rs:310-345 | on text that lexes, the byte scanner sees the tokens' reads that stand on one line |
| Agreement.ScannerAgreesWithParser | crates/tmx-core/src/lint.rs:302-407 | on every accepted text the scanner returns exactly the parsed expression's reads, in order, if and only if no line break stands inside one |
| Agreement.OneLineTextsAgree | crates/tmx-core/src/lint.rs:302-407 | so on every accepted text without line breaks the two readers agree |
| Agreement.LineBreakHidesRead | crates/tmx-core/src/lint.rs:383-389 | a concrete accepted text whose only read the scanner misses |
| Evaluator.ResolvePath | crates/tmx-core/src/interpolate.rs:581-623 | the step loop over a replaced current value computes the value of a path |
| Evaluator.RootsLead | crates/tmx-core/src/interpolate.rs:581-593 | what each fixed root names, an absent `case` or `output` being unknown |
| Evaluator.OtherRootsLead | crates/tmx-core/src/interpolate.rs:585-615 | any other root is the `map` element under its alias, or unknown |
| Evaluator.KeyLeadsToValue | crates/tmx-core/src/interpolate.rs:636-698 | after a path to an object, a dotted or indexed key leads to the value of its entry |
| Evaluator.MissingKeyIsRefused | crates/tmx-core/src/interpolate.rs:671-698 | a key the object lacks is unknown, and right under `secrets` an unlisted secret |
| Evaluator.IndexLeadsToElement | crates/tmx-core/src/interpolate.rs:700-722 | after a path to an array, a number leads to the element with that many elements before it |
| Evaluator.IndexIsUnknownIff | crates/tmx-core/src/interpolate.rs:700-722 | an index is unknown exactly when it is at least the length |
| Evaluator.MismatchedStep | crates/tmx-core/src/interpolate.rs:644-722 | a key of an array, an element of an object, and an index that is neither text nor a whole number are type mismatches |
| Evaluator.IndexFailurePasses | crates/tmx-core/src/interpolate.rs:645-647 | an index that fails passes its own error on |
| Evaluator.ScalarsHaveNoParts | crates/tmx-core/src/interpolate.rs:594-608 | nothing is read of a scalar, but for the position of a `map` element |
| Evaluator.FailureStays | crates/tmx-core/src/interpolate.rs:617-623 | a path that fails goes on failing with the same error |
| Evaluator.LiteralsDenote | crates/tmx-core/src/interpolate.rs:494-496 | what each literal denotes |
| Evaluator.NegationIsFalsy | crates/tmx-core/src/interpolate.rs:537-547 | exactly `null`, `false`, zero and the empty string negate to true |
| Evaluator.EvaluateParses | crates/tmx-core/src/interpolate.rs:46-49 | a text evaluates to its parsed expression's value and is rejected exactly for the reason it does not parse |
| Evaluator.ReadsDecideValue | crates/tmx-core/src/interpolate.rs:493-722 | scopes that agree on an expression's lint reads, and on the unchecked namespaces, give it the same value or error, provided every checked root is followed by a dotted name |
| Evaluator.ScannedReadsDecideValue | crates/tmx-core/src/interpolate.rs:46-49 | the same from the text alone: what the scanner lists decides what the text evaluates to |
| Evaluator.BareRootIsUnseen | crates/tmx-core/src/lint.rs:347-362 | a bare checked root has no reads, yet its value is the whole namespace: the proviso is needed |
| Evaluator.ListedSecretsAreFound | crates/tmx-core/src/interpolate.rs:671-698 | when every secret read is in scope, evaluation never fails with `unlisted_secret` |
| Evaluator.UnlistedSecretIsRefused | crates/tmx-core/src/interpolate.rs:671-685 | a lone secret read fails with that code exactly when the secrets object lacks it |
| Evaluator.ValuesAreWellFormed | crates/tmx-core/src/interpolate.rs:493-535 | evaluation over values with distinct keys yields such values |
| Evaluator.EqualsItself | crates/tmx-core/src/interpolate.rs:549-572 | an expression with a value is strictly equal to itself, compounds included |
| Evaluator.LogicFollowsTruth | crates/tmx-core/src/interpolate.rs:505-535 | the connectives return an operand, agree with truth values, and meet a right operand's failure only when they reach it |
| Evaluator.EqualityCompares | crates/tmx-core/src/interpolate.rs:523-533 | `===` compares the operands' values structurally, the left operand evaluated first, errors in that order |
| Evaluator.NegationLaws | crates/tmx-core/src/interpolate.rs:497-535 | negation distributes over the connectives, errors and evaluation order included; `!==` negates `===` |
| Matcher.DeepEqualReflexive | crates/tmx-core/src/matcher.rs:262-286 | structural equality is reflexive |
| Matcher.DeepEqualSymmetric | crates/tmx-core/src/matcher.rs:262-286 | and symmetric, although its object case looks one way only |
| Matcher.DeepEqualTransitive | crates/tmx-core/src/matcher.rs:262-286 | and transitive |
| Matcher.MatchesReflexive | crates/tmx-core/src/matcher.rs:417-440 | every value matches itself |
| Matcher.MatchesTransitive | crates/tmx-core/src/matcher.rs:417-440 | containment is transitive |
| Matcher.EqualMatches | crates/tmx-core/src/matcher.rs:417-440 | equal values match |
| Matcher.MutualMatchIsEqual | crates/tmx-core/src/matcher.rs:417-440 | two values match each other if and only if they are structurally equal |
| Matcher.MatchIsEqualPart | crates/tmx-core/src/matcher.rs:417-440 | a value matches exactly when deleting some of its object entries, at any depth, leaves a value equal to the expected one |
| JsonReader.RenderIsRead | crates/tmx-core/src/merge.rs:322-335 | compact JSON text reads back as the value it renders, escapes (section 7 of RFC 8259) included |
| Matcher.RelationsNest | crates/tmx-core/src/matcher.rs:224-286 | identity implies strict equality implies structural equality, and where each step is proper |
| Matcher.ExprStrictEqIsDeepEqual | crates/tmx-core/src/interpolate.rs:549-572 | the expression language's `===` is the matcher's structural equality |
| Template.FillTemplate | crates/tmx-core/src/dispatch.rs:180-196 | the loop over the rest of the text replaces each expression by its value's text, the first failure ending it |
| Template.InterpTemplate | crates/tmx-core/src/dispatch.rs:169-198 | verbatim, lone and spliced forms are told apart as the code does |
| Template.SplitUndoesAssemble | crates/tmx-core/src/dispatch.rs:182-195 | literals and expressions put together split back into the same literals and expressions |
| Template.AssembleUndoesSplit | crates/tmx-core/src/dispatch.rs:182-195 | every text is such a composition, with an unclosed delimiter at most in its tail |
| Template.FillIsFilled | crates/tmx-core/src/dispatch.rs:180-196 | the loop computes the literals joined with the values' texts |
| Template.TemplateSplices | crates/tmx-core/src/dispatch.rs:163-198 | outside the lone form a template becomes its literals joined with the rendered values, or the first error in reading order |
| Template.UnterminatedIff | crates/tmx-core/src/dispatch.rs:185-190 | `expr_unterminated` is the outcome exactly when a delimiter is left open and every complete expression has a value |
| Template.ValueIsSpliced | crates/tmx-core/src/dispatch.rs:191-232 | a string value contributes its own bytes to the text around it, any other value its compact JSON |
| Template.LoneFormIff | crates/tmx-core/src/dispatch.rs:173-179 | a trimmed template is taken as one expression exactly when it is one hole, with nothing before it, and nothing or a text that ends in a closing delimiter after it |
| Template.LoneExpressionKeepsType | crates/tmx-core/src/dispatch.rs:163-179 | a lone expression yields its raw value; a closed tail is read as part of the code |
| Template.InterpValue | crates/tmx-core/src/dispatch.rs:201-218 | the recursive walk that fills a fresh object interpolates every string leaf in place |
| Template.PlainValuesAreKept | crates/tmx-core/src/dispatch.rs:200-218 | a value without templates is its own interpolation |
| Template.ItemsAreInterpolated | crates/tmx-core/src/dispatch.rs:203-208 | item by item an array becomes the interpolations of its items, or the error of the first that fails |
| Template.EntriesAreInterpolated | crates/tmx-core/src/dispatch.rs:209-215 | an object is interpolated as the array of its values is, under the same keys |
| Template.KeysAreKept | crates/tmx-core/src/dispatch.rs:209-215 | interpolating an object keeps its keys, in order |
| Encoders.Base64Encode | crates/tmx-core/src/merge.rs:105-132 | the group loop computes the specified encoding |
| Encoders.Base64Length | crates/tmx-core/src/merge.rs:102-132 | four characters for each started group of three bytes |
| Encoders.Base64Decodes | crates/tmx-core/src/merge.rs:102-132 | decoding (section 4 of RFC 4648) gives back the bytes |
| Encoders.UriEncode | crates/tmx-adapters/src/store.rs:547-563 | the byte loop computes the specified encoding, slashes encoded or kept |
| Encoders.UriDecodes | crates/tmx-adapters/src/store.rs:545-563 | percent decoding (section 2.1 of RFC 3986) gives back the bytes |
| Encoders.UriCopiesExactly | crates/tmx-adapters/src/store.rs:545-563 | the bytes copied are the unreserved ones (section 2.3 of RFC 3986), and slashes when they are kept; all others take three characters |
| Encoders.EncodedSlashesAreGone | crates/tmx-adapters/src/store.rs:545-563 | with slashes encoded the output holds none |
| Encoders.PercentEncode | crates/tmx-core/src/dispatch.rs:485-497 | the byte loop computes the specified form encoding |
| Encoders.FormDecodes | crates/tmx-core/src/dispatch.rs:483-497 | form decoding gives back the bytes, spaces as plus signs |
| Encoders.FormCopiesExactly | crates/tmx-core/src/dispatch.rs:483-497 | the bytes copied are the unreserved ones, and only a space becomes a plus |
| Encoders.FormBodyDecodes | crates/tmx-core/src/dispatch.rs:463-481 | a form body splits and decodes to its fields, in order, even where keys or values hold separators |
| Merge.CheckMergeDepth | crates/tmx-core/src/merge.rs:343-373 | the explicit-stack loop ends, and accepts exactly the outputs whose nesting, one level down, is within the limit |
| Merge.DeltaIsExact | crates/tmx-core/src/merge.rs:270-300 | the size computed from the old and new entry alone is the length of the whole new state's text, and the subtraction never underflows |
| Merge.StateBuilder.FromStateWithCap | crates/tmx-core/src/merge.rs:188-196 | starts from the seed with its measured size; the cap cannot be widened |
| Merge.StateBuilder.WithCap | crates/tmx-core/src/merge.rs:167-175 | starts from the empty object, two bytes long |
| Merge.StateBuilder.Merge | crates/tmx-core/src/merge.rs:241-313 | succeeds exactly when the output nests within the limit and the new serialisation fits the cap; then the key holds the output and no other key changes; a refusal changes nothing; the running size stays the serialised length |
| Merge.MergesKeepKeysDistinct | crates/tmx-core/src/merge.rs:241-313 | over any sequence of merges keys stay distinct |
| Merge.MergesKeepCap | crates/tmx-core/src/merge.rs:225-240 | once within the cap, or after any accepted merge, the state stays within it |
| Merge.LastWriteWins | crates/tmx-core/src/merge.rs:225-240 | after any sequence of merges a key holds the output of its last accepted merge |
| Mask.Masker.Register | crates/tmx-core/src/mask.rs:148-175 | adds a new secret to the bucket its length calls for, keeping buckets free of duplicates and longest first |
| Mask.Masker.ScrubStr | crates/tmx-core/src/mask.rs:396-412 | exact match, then replacement secret by secret; reports a change exactly when a secret was found |
| Mask.ScrubbedIsClean | crates/tmx-core/src/mask.rs:392-433 | when no scanned secret can share a byte with a placeholder, scrubbed text holds no scanned secret and is no below-floor secret |
| Mask.NoLeakIffPlaceholderClear | crates/tmx-core/src/mask.rs:428-433 | for bracket-free secrets, no text leaks if and only if no secret is part of the placeholder's word |
| Mask.LoneSecretLeaksIff | crates/tmx-core/src/mask.rs:392-433 | a single scanned secret of any bytes leaks from no text if and only if it cannot start inside a placeholder, nor run into one that left-to-right scanning can put behind its beginning |
| Mask.PlaceholderPartLeaks | crates/tmx-core/src/mask.rs:392-412 | a scanned secret inside the placeholder's word survives its own redaction, whatever else is registered |
| Mask.ScrubbedValueIsClean | crates/tmx-core/src/mask.rs:345-426 | under the same condition no string or number leaf at any depth keeps a secret; keys and lengths are unchanged |
| Mask.CleanIsKept | crates/tmx-core/src/mask.rs:345-390 | a value without secrets comes back as it was |
| Mask.RedactingIsIdempotent | crates/tmx-core/src/mask.rs:201-223 | redacting twice is redacting once |
| Mask.SecretBecomesPlaceholder | crates/tmx-core/src/mask.rs:392-412 | a string that is a secret becomes the placeholder and nothing else |
| Cancel.CancelToken.Request | crates/tmx-core/src/cancel.rs:121-126 | records the reason passed in unless one is already there |
| Cancel.CancelToken.HardCancel | crates/tmx-core/src/cancel.rs:131-144 | records the reason passed in for both phases unless already set, and takes and wakes every parked waker |
| Cancel.CancelToken.Register | crates/tmx-core/src/cancel.rs:161-171 | parks the waker, or wakes it at once when the hard phase has begun |
| CancelProtocol.StepKeepsInvariant | crates/tmx-core/src/cancel.rs:121-222 | every locked section, poll and wake-up keeps the protocol's invariant |
| CancelProtocol.NoLostWakeup | crates/tmx-core/src/cancel.rs:158-222 | in every reachable state a pending guard is registered, or has been woken, or is owed a wake-up by a canceller |
| CancelProtocol.DrainsWakeEveryPendingGuard | crates/tmx-core/src/cancel.rs:131-144 | the cancellers' wake loops end, and then every pending guard has been woken |
| CancelProtocol.RepollResolves | crates/tmx-core/src/cancel.rs:203-222 | a guard polled after the hard phase resolves to that cancellation without polling its work |
| CancelProtocol.FirstReasonWins | crates/tmx-core/src/cancel.rs:118-144 | over every run both phases keep their first reason, and hard implies requested |
| CancelProtocol.FirstCallsSetReasons | crates/tmx-core/src/cancel.rs:118-144 | after every run each phase holds the reason passed to the first call that set it, or nothing, and a cancelled guard carries the reason of the run's first hard cancel |
| CancelProtocol.CancelledForHardReason | crates/tmx-core/src/cancel.rs:203-222 | a guard is cancelled only for the reason the hard phase keeps |
| CancelProtocol.WokenTellsTheTruth | crates/tmx-core/src/cancel.rs:131-171 | a guard counted as woken has been woken by a step of the run since its last poll |
| CancelProtocol.ReadyWorkFinishes | crates/tmx-core/src/cancel.rs:203-222 | while nobody cancels, a poll whose work is ready returns its result |
| CancelProtocol.PendingWorkParks | crates/tmx-core/src/cancel.rs:203-222 | and a poll whose work is pending returns pending with its waker parked |
| CancelProtocol.LateRegistrationWakes | crates/tmx-core/src/cancel.rs:158-222 | a guard that registers after the hard phase wakes itself, parks nothing and resolves to the cancellation |
| CancelProtocol.UntriggeredIsTransparent | crates/tmx-core/src/cancel.rs:173-186 | without a hard cancel no guard is woken or cancelled |
| Scheduler.RunSerial | crates/tmx-adapters/src/scheduler.rs:36-71 | the index loop yields the results in order |
| Scheduler.StepKeepsInvariant | crates/tmx-adapters/src/scheduler.rs:98-164 | every step keeps permits held plus free at the bound and the counter equal to the units counted, and uses up one unit of work |
| Scheduler.InFlightBounded | crates/tmx-adapters/src/scheduler.rs:118-146 | never more units in flight than the bound |
| Scheduler.SomeUnitCanStep | crates/tmx-adapters/src/scheduler.rs:98-164 | until all units are done, some unit can step |
| Scheduler.EveryRunIsSerial | crates/tmx-adapters/src/scheduler.rs:98-164 | every run, in any order, takes at most five steps for each unit, and once all are done holds the serial scheduler's results, no unit in flight and every permit free |
| Scheduler.RunConcurrent | crates/tmx-adapters/src/scheduler.rs:98-164 | stepping any enabled unit until none is left ends with the serial results |
| FanOut.EffectiveIsBounded | crates/tmx-core/src/fanout.rs:104-125 | the concurrency handed on is the greatest number, at least one, within the request, the run's cap and the engine's ceiling |
| FanOut.RunMap | crates/tmx-core/src/fanout.rs:57-189 | guards fail in the code's order; with failures recorded there is one slot for each element in element order, otherwise the failing element of lowest index decides |
| FanOut.RejectedExactlyWhen | crates/tmx-core/src/fanout.rs:80-150 | which task is refused for which reason, and the depth at which an inner flow runs |
| FanOut.SlotIsOfBoundElement | crates/tmx-core/src/fanout.rs:150-189 | slot `i` is the inner task's result at position `i` on the element bound to that position |
| FanOut.BoundPositionIsFound | crates/tmx-core/src/fanout.rs:191-210 | an object element without an `index` of its own reads, under that key, a number that is its zero-based position |
| Numerals.PositionIsRead | crates/tmx-core/src/fanout.rs:205-206 | the number of a position reads back as an index equal to it |
| FanOut.BindItemKeepsData | crates/tmx-core/src/fanout.rs:191-210 | binding an object element adds only its index, and its own key wins |
| Scores.CaseScore | crates/tmx-core/src/fanout.rs:486-529 | the weighted loop fails exactly on a weight that is not positive; otherwise its result is the weighted mean, in the unit interval and between any bounds on the scores |
| Scores.MissingWeightIsOne | crates/tmx-core/src/fanout.rs:486-500 | a scorer without a weight counts as one of weight one |
| Scores.AggregateSummary | crates/tmx-core/src/fanout.rs:728-758 | mean, the share of scores that reach the pass score, least score and percentiles of the case scores, and the empty summary |
| Scores.PercentileIsLeast | crates/tmx-core/src/fanout.rs:760-774 | a percentile is one of the scores, and the least value that at least that fraction of the cases do not exceed |
| Scores.MeanIsBetween | crates/tmx-core/src/fanout.rs:736-740 | the mean lies between the least and the greatest score |
| Scores.SummaryIsOrdered | crates/tmx-core/src/fanout.rs:728-774 | the least score, then percentiles of growing fractions, ascend |
| Calendar.CivilIsGregorian | crates/tmx-adapters/src/clock.rs:103-115 | every day number is a date of the Gregorian calendar, and the next day number is the calendar's next day |
| Calendar.EpochIs1970 | crates/tmx-adapters/src/clock.rs:101-115 | day 0 is the first of January 1970 |
| Calendar.CivilIsMonotone | crates/tmx-adapters/src/clock.rs:103-115 | later days have later dates, so no two days share one |
| Calendar.EveryDateIsReached | crates/tmx-adapters/src/clock.rs:103-115 | every date of the calendar is some day's |
| Calendar.CopiesAgree | crates/tmx-adapters/src/store.rs:585-599 | the second, unsigned copy agrees from the epoch on |
| Timestamps.StringOrderIsTimeOrder | crates/tmx-adapters/src/clock.rs:89-99 | up to year 9999 the byte order of formatted instants (section 5.6 of RFC 3339) is the order of time |
| Timestamps.FormatIsRead | crates/tmx-adapters/src/clock.rs:89-99 | the fields of a formatted instant read back as its date, hour, minute, second and millisecond, at their fixed widths |
| Timestamps.LexLessDecides | crates/tmx-adapters/src/runstore.rs:279-284 | string order is decided at the first byte where two texts differ or the first one ends |
| Timestamps.CutoffIsRetentionWindow | crates/tmx-adapters/src/clock.rs:59-67 | an instant precedes the cutoff exactly when it is more than the given days old; a window that reaches past the epoch saturates there |
| RunStore.LocalRunStore.AppendEvent | crates/tmx-adapters/src/runstore.rs:194-232 | extends one run's log by the capped append and leaves every other log alone |
| RunStore.LogIsLongestFit | crates/tmx-adapters/src/runstore.rs:194-232 | a log is the longest prefix of its events that fits the cap, then one truncation marker exactly when an event did not fit |
| RunStore.TotalIsFileLength | crates/tmx-adapters/src/runstore.rs:214-230 | the bytes counted are the length of the log file, newlines included |
| RunStore.LocalRunStore.Prune | crates/tmx-adapters/src/runstore.rs:274-294 | removes exactly the expired runs with their logs, and counts them; a run without a readable start is kept |
| RunStore.PruneComparesInstants | crates/tmx-adapters/src/runstore.rs:274-294 | a formatted run is pruned if and only if its instant precedes the cutoff's |
| RunStore.StoringSink.Emit | crates/tmx-adapters/src/runstore.rs:366-391 | after any stream of events each run's log is the capped log of the events emitted since its latest start |
| RunStore.SegmentIsFiled | crates/tmx-adapters/src/runstore.rs:362-391 | a `run.start` and the events up to the next one are filed under its id and nowhere else |
| RunStore.NothingIsFiledBeforeStart | crates/tmx-adapters/src/runstore.rs:366-375 | events before the first `run.start` are filed nowhere |
| Imports.Walk | crates/tmx-adapters/src/resolve.rs:112-148 | the walk with a pushed and popped chain ends, restores the chain, and accepts exactly when no walk repeats a document or meets one that does not load; a refusal names a witness |
| Imports.AssertAcyclic | crates/tmx-adapters/src/resolve.rs:95-108 | the same from an entry document |
| Imports.ClearIsAcyclic | crates/tmx-adapters/src/resolve.rs:88-148 | acceptance means that no cycle is reachable from the entry and every document reached loads, and conversely |
| Imports.RankedIsClear | crates/tmx-adapters/src/resolve.rs:110-148 | any graph whose imports descend some ranking is accepted, diamonds included |
| Imports.CheckImports | crates/tmx-core/src/usecases.rs:271-320 | the depth-bounded loop restores its chain and reports the specified findings in order |
| Imports.LintReportsExactly | crates/tmx-core/src/usecases.rs:271-320 | an unresolved reference, or a cycle with the document it names, is reported if and only if some walk within the depth bound leads to it |
| Imports.LintFindsBoundedCycles | crates/tmx-core/src/usecases.rs:271-320 | a cycle is reported if and only if some walk within the depth bound closes back on its own chain |

## Left out

- Network and operating-system adapters (chat, HTTP, processes, secrets, files, request sending, signing): libraries this model cannot see.
- The runner, preflight and context merging are not part of this model.
- JSON Schema validation, configuration layering, duration parsing, error-code tables: true but easy.
- `run_eval`'s scorer dispatch and thresholds: the model starts from the scorers' results.
- The matcher's property paths, numeric and text matchers: short scans and comparisons beside the relations proved here.
- The rest of `analyze_flow` (duplicate task names, `produces` checks, collecting expressions): plain set lookups over the reads proved here.
- Error messages: an error is its code, with the entity it names where that matters.
- Machine integers other than the saturating ones are unbounded; bit shifts are written as divisions and remainders by powers of two.
- A number's value is an abstract real beside its text; NaN and rounding are not modelled, so `0.9 * n` is exact.
- Memory ordering and the real executor: the scheduler and the token are interleavings of their atomic steps.
- I/O failures: appends and removals succeed, appends do not overlap, and the wrapped sink's own result is not modelled.
- The choice of order among secrets of equal length, borrowing (`Cow`), the masker's identity seals, `redact_event` and `redact_error`.
- Lexer.Tokenize: whether `serde_json` reads a lexeme as a number is a parameter, so the property holds for any such reader.
- Printer.PrintThenParse: asks that the printed text and its nesting stay within the limits, because the parser refuses longer ones.
- Evaluator.ReadsDecideValue: one direction only, because an operand that is never evaluated may read anything without changing the value.
- Mask.ScrubbedIsClean: one direction for several secrets with brackets, because a later secret's replacement can break up what an earlier one left behind.
- Mask.ScrubbedValueIsClean: object keys are not scrubbed by the code, so it says nothing about them beyond being unchanged.
- Timestamps.StringOrderIsTimeOrder: stops at year 9999, after which the year takes a fifth digit.
- Scores.CaseScore: over the reals, so the bounds hold before rounding.
- RunStore.LocalRunStore.AppendEvent: a new process starts with empty log states, as the code does; logs left on disk by an earlier process are not read back.
- Template.InterpTemplate: `str::trim` and evaluation are parameters, so the property holds for any of them.
- Template.LoneFormIff: stated for text that trimming keeps; otherwise it applies to the trimmed text.
