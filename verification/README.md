# Models of the repository's verification scripts

A Dafny 4.11 project that models the scripts under `scripts/` whose answers the rest of the repository relies on, and
proves what their comments and self-tests promise.

- **Test vectors** (`gen-test-vectors-p256.py`): curve arithmetic, ECDSA, point encoding, the Merkle tree of section
  2.1 of RFC 6962 with its compact range, MessagePack and the service record field. Modules `Modular`, `Algebra`,
  `Curve`, `Group`, `P256`, `Sec1`, `Ecdsa`, `Merkle`, `Bytes`, `MessagePack`, `ServiceRecord`.
- **Workflow conditions** (`check-workflow-compile-steps.py`, `ci-aggregate-result.py`): two evaluators of one
  expression language and a textual test of it. Modules `Lexing`, `Splitting`, `Expressions`, `Grammar`, `Completion`,
  `Structure`, `Kleene`, `RefTest`, `MainGate`, `Spacing`, `GateExact`, `Aggregate`, `AggregateGrammar`,
  `AggregateTokens`, `AggregateText`, `MergeGate`.
- **`cfg` predicates** (`check-bridge-block-on.py`, `check-call-invariants.py`): two readings of one predicate.
  Modules `Cfg`, `CfgForms`, `CfgWalk`.
- **Transclusion** (`doc_includes.py`, `check-doc-includes.py`, `resolve-doc-includes.py`). Modules `DocIncludes`,
  `DocBlocks`, `DocTree`, `DocCheck`, `DocDrift`.
- **Features, releases, timings** (`check-test-shard-features.py`, `check-publish-graph.py`,
  `summarize-cargo-timings.py`). Modules `ShardFeatures`, `PublishGraph`, `Timings`.

Code that moves a cursor, fills a table or loops is a `class` or a `method` proved against a specification function;
the theorems are about those functions. `dafny verify dfyconfig.toml` checks everything.

What is taken as given, always as a hypothesis of the lemma that uses it: the field modulus and the group order are
prime, chord-and-tangent addition is associative (`Group.GroupLaw`), and the order annihilates the base point
(`Ecdsa.SigningParams`). Closure, commutativity, inverses and Fermat's little theorem are proved. The curve is a
parameter record; `P256.Parameters` gives the numeric facts about the source's constants, and
`SmallCurve.MeetsHypotheses` a curve for which all the hypotheses are proved, so that no lemma is vacuous. SHA-256 is an
arbitrary function value. What Python's tables say of characters beyond ASCII (word characters, digits, lower case) is
in constants without a value, so every result holds whatever they say; the three letters that matter to the ref test are
spelled out.

## Model

| member | source | states |
|---|---|---|
| `Modular.Fermat` | scripts/gen-test-vectors-p256.py:102-108 | Fermat's little theorem, on which every `pow(x, p - 2, p)` of the script rests, for every prime and every unit |
| `Modular.PowModInverse` | scripts/gen-test-vectors-p256.py:102-108 | the power the script takes for an inverse is one |
| `Curve.ToAffineInvertsRepresents` | scripts/gen-test-vectors-p256.py:102-108 | a Jacobian triple that stands for a point, at any scale and for infinity, converts to that point |
| `Curve.DoubleRefines` | scripts/gen-test-vectors-p256.py:57-68 | the Jacobian double of any triple for P stands for the affine P + P, infinity and points of order two included |
| `Curve.AddRefines` | scripts/gen-test-vectors-p256.py:71-99 | the Jacobian sum of any triples for P and Q stands for the affine P + Q, with infinity, P = Q and P = -Q |
| `Curve.SameX` | scripts/gen-test-vectors-p256.py:132-147 | two curve points with one x are equal or opposite, so the affine case split is complete |
| `Group.AddValid` | scripts/gen-test-vectors-p256.py:132-147 | affine addition stays on the curve with reduced coordinates |
| `Group.AddCommutes` | scripts/gen-test-vectors-p256.py:132-147 | affine addition commutes |
| `Group.NegateValid` | scripts/gen-test-vectors-p256.py:132-147 | every point has its opposite on the curve, and adds to it to infinity |
| `Group.ScalarMultJacobian` | scripts/gen-test-vectors-p256.py:111-121 | for any coordinates the most-significant-bit-first loop computes `JacobianLadder`, and on the curve the k-fold affine sum, or infinity where n divides k |
| `Group.LadderMultiplies` | scripts/gen-test-vectors-p256.py:111-121 | on the curve the Jacobian ladder is the k-fold affine sum |
| `Group.ScalarMultAffine` | scripts/gen-test-vectors-p256.py:150-162 | for any coordinates the least-significant-bit-first loop computes `AffineLadder`, and on the curve the (k mod n)-fold sum |
| `Group.AffineLadderMultiplies` | scripts/gen-test-vectors-p256.py:150-162 | on the curve the affine ladder is the (k mod n)-fold sum |
| `Group.LaddersAgree` | scripts/gen-test-vectors-p256.py:111-162 | the two agree on every scalar if and only if n annihilates the point, although only one of them reduces k |
| `Group.MultipleAdd` | scripts/gen-test-vectors-p256.py:150-162 | (j + k) P = j P + k P |
| `Group.MultipleMultiple` | scripts/gen-test-vectors-p256.py:383-400 | (j k) P = j (k P) |
| `Group.MultipleMod` | scripts/gen-test-vectors-p256.py:150-162 | multiples of a point that n annihilates depend on the scalar mod n only |
| `P256.Parameters` | scripts/gen-test-vectors-p256.py:41-47 | the constants meet what the lemmas ask: P mod 4 = 3, N odd, both of 32 bytes, the base point on the curve, its ordinate the odd one of the two |
| `P256.DigestBits` | scripts/gen-test-vectors-p256.py:313-316 | the order has as many bits as a 32-byte digest, so such a digest signs as its own number |
| `Sec1.RootOfSquare` | scripts/gen-test-vectors-p256.py:193-206 | the exponent (P + 1) / 4 gives a square root of every square |
| `Sec1.DecodeCompressed` | scripts/gen-test-vectors-p256.py:181-206 | decoding the compressed form of any curve point gives the point back |
| `Sec1.DecodeUncompressed` | scripts/gen-test-vectors-p256.py:187-206 | decoding the uncompressed form gives the point back |
| `Sec1.OrdinateOnCurve` | scripts/gen-test-vectors-p256.py:193-206 | for any x the decoder's ordinate lies on the curve if and only if some ordinate does |
| `Sec1.EncodeDecoded` | scripts/gen-test-vectors-p256.py:181-206 | a compressed string that decodes to a curve point is that point's only compressed form |
| `Ecdsa.EcdsaSign` | scripts/gen-test-vectors-p256.py:364-380 | over an endless stream of nonces in which one serves, the loop returns the encoding of the first that does, both numbers in [1, n - 1]; what they solve is `Ecdsa.SignThenVerify` |
| `Ecdsa.EcdsaVerify` | scripts/gen-test-vectors-p256.py:383-400 | for any public pair the verifier decides `AcceptsRaw`, wrong lengths and out-of-range numbers included; `Ecdsa.AcceptsRawIff` says which bytes those are |
| `Ecdsa.Bits2IntIff` | scripts/gen-test-vectors-p256.py:313-316 | the number of a digest is the one whose encoding at the digest's width is the digest, where it has no more bits than the order, and otherwise the one e with e 2^x <= digest < (e + 1) 2^x for the excess x |
| `Ecdsa.Bits2IntInjective` | scripts/gen-test-vectors-p256.py:313-316 | digests of one length within the order's bits sign as different numbers |
| `Ecdsa.SignsIff` | scripts/gen-test-vectors-p256.py:364-380 | a nonce gives exactly the pair that solves k s = e + r d with r the abscissa of k G, or with low s the low one of s and n - s, and none where no pair does |
| `Ecdsa.AcceptsUnder` | scripts/gen-test-vectors-p256.py:383-400 | under any key on the curve, acceptance is the standard's equation over multiples of G and of the key, with any inverse of s |
| `Ecdsa.NonceNotInfinity` | scripts/gen-test-vectors-p256.py:364-380 | no nonce in [1, n - 1] gives infinity |
| `Ecdsa.OppositeNonce` | scripts/gen-test-vectors-p256.py:364-380 | k and n - k give points with one x, which is why negating s keeps r |
| `Ecdsa.AcceptsIff` | scripts/gen-test-vectors-p256.py:383-400 | a pair is accepted if and only if s is low and r is the x of the nonce that s fixes |
| `Ecdsa.SignedAccepted` | scripts/gen-test-vectors-p256.py:364-400 | an unnormalized signature is accepted if and only if s is at most n / 2, and its (r, n - s) exactly otherwise |
| `Ecdsa.AcceptsExactlySigned` | scripts/gen-test-vectors-p256.py:364-400 | under the key d G the verifier accepts a pair if and only if some nonce signs it |
| `Ecdsa.SignThenVerify` | scripts/gen-test-vectors-p256.py:364-400 | whatever nonces are drawn first, the two halves of the bytes solve the equation for the digest's number, no earlier nonce has a solution, the signature is low where that was asked for and is then accepted, and of (r, s) and (r, n - s) as bytes the verifier accepts exactly the low one |
| `Ecdsa.SignedEquation` | scripts/gen-test-vectors-p256.py:364-380 | for a digest within the order's bits, k s is digest + r d mod n, or its opposite only where low s was asked for |
| `Ecdsa.AcceptsRawIff` | scripts/gen-test-vectors-p256.py:383-400 | under the key d G exactly the bytes of pairs that solve the equation for some nonce are accepted |
| `Merkle.MerkleRoot` | scripts/gen-test-vectors-p256.py:501-509 | the recursion with its loop for the split computes the root with the split at the largest power of two below the size |
| `Merkle.TreeRootIs` | scripts/gen-test-vectors-p256.py:493-509 | the three equations of section 2.1 of RFC 6962 over the bytes hashed: nothing, one entry, and the split at the largest power of two below the number |
| `Merkle.CompactRange` | scripts/gen-test-vectors-p256.py:915-923 | the loop over bits computes `Range` |
| `Merkle.RangeTiles` | scripts/gen-test-vectors-p256.py:915-923 | the range's nodes tile the leaves from left to right, sizes strictly falling powers of two, each digest the root of its stretch |
| `Merkle.CompactFold` | scripts/gen-test-vectors-p256.py:926-930 | the right-to-left loop computes `Fold` |
| `Merkle.FoldIsRoot` | scripts/gen-test-vectors-p256.py:926-962 | for every non-empty leaf list the fold of the range is the tree's root |
| `Merkle.CompactAppend` | scripts/gen-test-vectors-p256.py:933-941 | the merging loop computes `Carry` of the nodes with the new leaf |
| `Merkle.AppendExtendsRange` | scripts/gen-test-vectors-p256.py:933-962 | appending the next leaf to the range of any list gives the range of the longer list: starts, sizes and digests |
| `Merkle.GrownIsRange` | scripts/gen-test-vectors-p256.py:944-962 | after every append of any run from empty the nodes are the range and the fold the root |
| `Merkle.RootBinds` | scripts/gen-test-vectors-p256.py:493-509 | equal roots over data of any number mean equal data, in number and order, or two different hashed strings with one digest |
| `Bytes.ToFromBytes` | scripts/gen-test-vectors-p256.py:423-424 | a big-endian string is the encoding, at its own width, of the number it decodes to |
| `MessagePack.DecodeEncode` | scripts/gen-test-vectors-p256.py:539-588 | a decoder reads back every encodable value, nested to any depth, and leaves whatever follows |
| `MessagePack.EncodingsArePrefixFree` | scripts/gen-test-vectors-p256.py:539-588 | no encoding is a prefix of another value's |
| `MessagePack.EncodesShortest` | scripts/gen-test-vectors-p256.py:539-588 | whatever bytes the decoder reads as a value, the encoding of that value is no longer, and equally long only where it is those bytes: the encoder writes the one shortest form of every number, string, header and nested value |
| `MessagePack.EncodesExactlyFits` | scripts/gen-test-vectors-p256.py:539-588 | the encoders raise exactly on a value with a part beyond their size limits |
| `ServiceRecord.EntriesField` | scripts/gen-test-vectors-p256.py:2573-2585 | the loop over entries computes `EncodeEntries`, and fails where the source's assertions do |
| `ServiceRecord.EntriesEncodeIff` | scripts/gen-test-vectors-p256.py:2546-2585 | the field is built if and only if every entry meets the source's assertions on type, target and wrapping key, and every length fits its 4 bytes |
| `ServiceRecord.OtherTypesSignNothing` | scripts/gen-test-vectors-p256.py:2546-2570 | an entry of another type signs nothing after its strings, and fails where it carries a target or a key |
| `ServiceRecord.DecodeEncodeEntries` | scripts/gen-test-vectors-p256.py:2546-2585 | the field decodes to as many bytes as were written, and to the same entries if and only if no present bridge target is the absent-value digest |
| `ServiceRecord.EntriesArePrefixFree` | scripts/gen-test-vectors-p256.py:2546-2585 | over such entry lists no field is a prefix of another list's |
| `ServiceRecord.SentinelTargetCollides` | scripts/gen-test-vectors-p256.py:2546-2555 | a present target equal to that digest and an absent one share a field |
| `Lexing.Tokenize` | scripts/check-workflow-compile-steps.py:707-719 | the matching loop computes `Tokens`: the longest-first tokens, or none where some text is no token |
| `Lexing.MunchCut` | scripts/check-workflow-compile-steps.py:707-719 | a token stays the same token when the text after it is cut short |
| `Spacing.LexSpaced` | scripts/check-workflow-compile-steps.py:707-719 | operators, quoted literals, names and numbers, in every spacing that keeps them apart, are read as exactly those tokens |
| `Spacing.EvaluateSpaced` | scripts/check-workflow-compile-steps.py:722-834 | so a field that wraps any expression, in any such spacing, is given the expression's meaning |
| `Spacing.GatedSpaced` | scripts/check-workflow-compile-steps.py:251-272 | and the gate accepts it if and only if the tree is one it should accept, where no literal opens a `${{` |
| `Splitting.SplitTopLoop` | scripts/check-workflow-compile-steps.py:209-240 | the character loop over depth and quotes computes `SplitTop` |
| `Splitting.SplitTopIsSplitTokens` | scripts/check-workflow-compile-steps.py:209-240 | on text that is all tokens, the character split is, part for part, the split of the tokens at parenthesis depth zero |
| `Splitting.StripParenthesesLoop` | scripts/check-workflow-compile-steps.py:243-248 | the loop computes `StripParentheses` |
| `Splitting.LexEnclosed` | scripts/check-workflow-compile-steps.py:243-248 | a pair of characters the test takes for enclosing is the first and the last token |
| `Splitting.StripLex` | scripts/check-workflow-compile-steps.py:191-206 | stripping white space keeps the tokens |
| `Expressions.Evaluator.Primary` | scripts/check-workflow-compile-steps.py:759-784 | the cursor method reads what `ParsePrimary` reads and stops where it stops |
| `Expressions.Evaluator.Comparison` | scripts/check-workflow-compile-steps.py:786-796 | likewise for `ParseComparison` |
| `Expressions.Evaluator.Conjunction` | scripts/check-workflow-compile-steps.py:798-810 | likewise for `ParseConjunction`; its table is `Kleene.ConjTruth` |
| `Expressions.Evaluator.Disjunction` | scripts/check-workflow-compile-steps.py:812-826 | likewise for `ParseDisjunction` |
| `Expressions.UnescapeEscape` | scripts/check-workflow-compile-steps.py:759-784 | reading a quoted literal undoes the doubling of its quotes |
| `Grammar.EvaluatePrinted` | scripts/check-workflow-compile-steps.py:722-834 | the evaluator gives every printed expression the three-valued meaning of its tree, whose tables are the next rows |
| `Kleene.VerdictTable` | scripts/check-workflow-compile-steps.py:722-834 | the verdict is True if and only if some disjunct has only true comparisons, False if and only if every disjunct has a false one, and otherwise unknown |
| `Kleene.ConjTable` | scripts/check-workflow-compile-steps.py:798-810 | a conjunction of several is false where a comparison is, otherwise unknown where one is, otherwise the last one's value |
| `Kleene.ConjTruth` | scripts/check-workflow-compile-steps.py:798-810 | a conjunction is true if and only if all its comparisons are, and false if and only if one is |
| `Kleene.DisjTable` | scripts/check-workflow-compile-steps.py:812-826 | a disjunction has the first true disjunct's value; without one it is unknown where one of several is, otherwise the last one's value |
| `Kleene.CompUnknownIff` | scripts/check-workflow-compile-steps.py:786-796 | a comparison is unknown if and only if an operand is or an operator orders |
| `Kleene.PrimTable` | scripts/check-workflow-compile-steps.py:759-784 | `!` is unknown exactly where its operand is and otherwise the opposite; text is true unless empty, and a call or a name without a value is unknown |
| `Kleene.NameComparison` | scripts/check-workflow-compile-steps.py:786-796 | a name compared with a literal is unknown without a value, and otherwise equality or inequality up to case |
| `Kleene.RuledOutIff` | scripts/check-workflow-compile-steps.py:837-838 | `may_run` is false if and only if every disjunct has a comparison that is false |
| `Completion.VerdictIsSound` | scripts/check-workflow-compile-steps.py:722-834 | where no `\|\|` decides the value of a compared operand, parenthesised ones included, a True or False verdict is the truth under every completion of the unknown names and calls |
| `Completion.ConjExact` | scripts/check-workflow-compile-steps.py:786-810 | as a compared operand a parenthesised conjunction has, where its value is known, that value under every completion |
| `Completion.MayRunNeverMisses` | scripts/check-workflow-compile-steps.py:837-838 | `may_run` holds of every condition that some completion satisfies |
| `Completion.ParenthesisedOperandIsUnsound` | scripts/check-workflow-compile-steps.py:786-826 | where an `\|\|` decides it a verdict can differ from the truth: `(x \|\| 'a') == 'a'` |
| `Structure.SplitConj` | scripts/check-workflow-compile-steps.py:209-240 | the parts between top-level `&&` are the conjunction's comparisons, call arguments and inner parentheses untouched |
| `Structure.SplitDisj` | scripts/check-workflow-compile-steps.py:251-272 | one part between top-level `\|\|` means the expression has one disjunct |
| `Structure.EnclosedIsParen` | scripts/check-workflow-compile-steps.py:243-248 | tokens enclosed by a pair whose inside balances are one parenthesised expression |
| `MainGate.RunEvaluate` | scripts/check-workflow-compile-steps.py:722-834 | the whole evaluator over a field's text computes `Evaluate` |
| `RefTest.LexMainRefTest` | scripts/check-workflow-compile-steps.py:187 | whatever the pattern matches, in any case and spacing and with the three letters beyond ASCII that ignoring case lets in, is the three tokens of a comparison |
| `RefTest.LowersIff` | scripts/check-workflow-compile-steps.py:187 | what the pattern matches lower-cases to the pattern if and only if it holds none of the three letters |
| `MainGate.BodyIff` | scripts/check-workflow-compile-steps.py:191-206 | a field holds an expression if and only if one `${{ }}` spans its text with no other opened inside, or it may be bare and opens none, and then that text |
| `MainGate.EvaluatedIff` | scripts/check-workflow-compile-steps.py:730-741 | the evaluator reads what one `${{ }}` spans, or a text that opens none, and gives up on every other |
| `MainGate.MatchesIff` | scripts/check-workflow-compile-steps.py:187 | the pattern matches the text of an expression if and only if the expression is the ref test |
| `MainGate.EnclosedIff` | scripts/check-workflow-compile-steps.py:243-248 | a text is taken for enclosed in parentheses if and only if its expression is one parenthesised expression |
| `MainGate.StripPeels` | scripts/check-workflow-compile-steps.py:243-248 | stripping enclosing parentheses from the text of an expression gives the text of the expression inside them |
| `MainGate.GatedIff` | scripts/check-workflow-compile-steps.py:251-272 | the gate accepts a well-formed expression, in any spacing, if and only if inside its parentheses it has one disjunct and a conjunct that inside its own is the ref test |
| `MainGate.GateIsSound` | scripts/check-workflow-compile-steps.py:191-272 | a field gated through a term without the three letters, whatever well-formed expression it holds, is never found true in a context whose ref is not `refs/heads/main` up to case |
| `GateExact.GateSoundIff` | scripts/check-workflow-compile-steps.py:187-272 | every well-formed field gated through a matched term is so if and only if the term holds none of the three letters, that is, if and only if its name and literal lower-case to the pattern's |
| `GateExact.RefTestIsGated` | scripts/check-workflow-compile-steps.py:251-272 | every matched text is itself such a field |
| `GateExact.DotlessBranchPasses` | scripts/check-workflow-compile-steps.py:187 | the documented promise fails at `github.ref == 'refs/heads/ma\u0131n'`: accepted, and true on the branch so named |
| `GateExact.OtherTermsMayHold` | scripts/check-workflow-compile-steps.py:251-272 | a field can be sound through another term, so the terms the gate accepts in one field do not decide that field |
| `Aggregate.Reader.Disjunction` | scripts/ci-aggregate-result.py:141-146 | the cursor method answers as `DisjunctionOf` does, every clause evaluated |
| `Aggregate.Reader.Conjunction` | scripts/ci-aggregate-result.py:148-153 | likewise for `ConjunctionOf` |
| `Aggregate.Reader.Term` | scripts/ci-aggregate-result.py:155-174 | likewise for `TermOf` |
| `Aggregate.AggregateMeans` | scripts/ci-aggregate-result.py:110-179 | the evaluator computes the Boolean meaning of every expression of its grammar |
| `Aggregate.OperandIs` | scripts/ci-aggregate-result.py:63-87 | an operand has a value exactly as a literal, as the event name, or as an output the filter job published, and then that value |
| `Aggregate.AggregateUnreadableIff` | scripts/ci-aggregate-result.py:63-179 | it is Unreadable if and only if an operand anywhere is unresolvable, whatever the other clauses answer |
| `Aggregate.EvaluatorsAgree` | scripts/ci-aggregate-result.py:110-179 | where it answers and values are lower case, the three-valued evaluator of the other script gives the same answer |
| `AggregateGrammar.AnswersIff` | scripts/ci-aggregate-result.py:110-179 | on tokens it answers if and only if they are the print of an expression of its grammar with every operand resolvable |
| `AggregateTokens.TokenizeText` | scripts/ci-aggregate-result.py:93-107 | the matching loop computes `ReadText`: the tokens, or Unreadable at text that is none |
| `AggregateTokens.ReadCollapsed` | scripts/ci-aggregate-result.py:127 | for every text the tokens of the collapsed text are the text's own with the white space inside literals collapsed, and one is readable if and only if the other is |
| `AggregateTokens.SameTokensIff` | scripts/ci-aggregate-result.py:127 | the two have the same tokens if and only if every literal is collapsed already |
| `AggregateText.ReadersAgree` | scripts/ci-aggregate-result.py:90-107 | text this tokenizer reads without two neighbouring operands is read alike by the other script's |
| `AggregateText.TextAnswersIff` | scripts/ci-aggregate-result.py:110-179 | on a text it answers if and only if the text reads as an expression of its grammar with every operand resolvable, and answers what that means |
| `AggregateText.EvaluatorsAgreeOnText` | scripts/ci-aggregate-result.py:110-179 | on any text without `${{` where it answers, over lower-case values and with literals collapsed already, the other script's evaluator answers the same |
| `AggregateText.CollapsedLiteralDiffers` | scripts/ci-aggregate-result.py:127 | with white space in a literal they can differ: `'a  b'=='a b'` is true to one and false to the other |
| `MergeGate.Verdict` | scripts/ci-aggregate-result.py:182-291 | the exact conditions of all four exit codes, over the jobs' conditions as expressions: code 0 off drafts if and only if both gate jobs succeeded, every condition reads with its operands resolvable, no job failed or was cancelled, and each without a condition or with one that means true succeeded |
| `MergeGate.GreenMeansSelectedSucceeded` | scripts/ci-aggregate-result.py:254-283 | a job with a readable condition is sound if and only if it succeeded, or neither failed nor was cancelled and its condition means false |
| `Cfg.CfgValueAt` | scripts/check-bridge-block-on.py:269-305 | the recursion with its index computes `CfgValue` on every token list, ends, and moves the index past what it read |
| `Cfg.CfgListAt` | scripts/check-bridge-block-on.py:286-293 | the argument loop computes `CfgList` up to the closing parenthesis |
| `Cfg.CfgValueOf` | scripts/check-bridge-block-on.py:269-305 | on a printed predicate the reader consumes exactly its tokens and gives its three-valued value |
| `Cfg.ValueTable` | scripts/check-bridge-block-on.py:294-305 | `all` is false where a part is and true where all are, `any` the dual, `not` exchanges the two, and the rest is unknown |
| `CfgForms.ReadsIff` | scripts/check-bridge-block-on.py:269-305 | on any token list the reader gives a value if and only if the list begins with a written predicate, commas optional and `not` of one part, and then its value and what follows it |
| `CfgForms.ExcludesExactly` | scripts/check-bridge-block-on.py:308-318 | the check excludes exactly the token lists that are, as a whole, a written predicate whose value is false, and each holds in no build without `test` |
| `Cfg.ValueIsSound` | scripts/check-bridge-block-on.py:269-305 | a True or False value is the predicate's truth in every build without `test` |
| `Cfg.ExcludedNeverInProduction` | scripts/check-bridge-block-on.py:308-318 | what the check excludes compiles in no build without `test` |
| `CfgWalk.WalkLoop` | scripts/check-call-invariants.py:179-239 | the walk with its index and result list computes `Walk` |
| `CfgWalk.TestGatedIs` | scripts/check-call-invariants.py:179-239 | on the tree of a predicate, whatever its commas, the walk folds the predicate's structure |
| `CfgWalk.CommentsIgnored` | scripts/check-call-invariants.py:179-239 | comments anywhere in the tree do not change what the walk finds |
| `CfgWalk.GatesAgree` | scripts/check-call-invariants.py:179-239 | a predicate without nested `not` and without a key named `test` that is called test-gated is excluded by the other check, and the converse without `not` and empty `any` |
| `CfgWalk.GatedNotExcluded` | scripts/check-call-invariants.py:179-239 | the first two conditions are needed: a predicate that breaks only one, is called test-gated and is not excluded, for each |
| `CfgWalk.ExcludedNotGated` | scripts/check-call-invariants.py:179-239 | so are the converse's two: `any()` and `not(all())` break only one, are excluded and not called test-gated |
| `DocIncludes.ScanFile` | scripts/doc_includes.py:108-219 | the pass over lines with its open marker computes `ScanLines`, error cases included |
| `DocIncludes.ExpandFile` | scripts/doc_includes.py:297-348 | the index loop computes `Expand`: lines and problems in order |
| `DocBlocks.ScansIff` | scripts/doc_includes.py:108-219 | the scanner takes exactly the files that are lists of blocks: plain lines, lines of inline pairs, and fragments and includes with their end |
| `DocBlocks.ScanPrinted` | scripts/doc_includes.py:108-219 | and finds in them the blocks' fragments and includes, in order |
| `DocBlocks.ExpandPrinted` | scripts/doc_includes.py:297-348 | expanding such a file fills each block where it stands and reports each block's problems, in order |
| `DocBlocks.ProblemFreeIff` | scripts/doc_includes.py:260-348 | it reports nothing if and only if every directive outside an include body names a fragment, in the file it declares, and of at most one line where it is inline |
| `DocBlocks.SourceMatchesIff` | scripts/doc_includes.py:285 | the declared file is the owner if and only if the owner's path ends with what is left of it behind its leading dots and slashes |
| `DocBlocks.ScannedSites` | scripts/doc_includes.py:260-348 | in a file that scans, a site without a fragment is reported; and where expansion leaves the file alone, every other site has its fragment's body or is reported |
| `DocBlocks.ExpandSettles` | scripts/doc_includes.py:260-348 | expanding a file that scans, without a problem and over plain fragments, gives a file that scans with the same fragments and the same includes, each body its fragment's, and that expanding again leaves as it is |
| `DocTree.CollectTree` | scripts/doc_includes.py:222-257 | the loops over files and fragments compute `Collect`: first definitions, includes in order, errors counted |
| `DocTree.CollectsIff` | scripts/doc_includes.py:222-257 | a tree collects without an error if and only if every file scans and no id is defined twice; includes are listed in order and the table has the ids of the fragments |
| `DocTree.CleanFile` | scripts/doc_includes.py:222-257 | without errors every file scans and every fragment is the table's entry for its id |
| `DocTree.CollectedTable` | scripts/doc_includes.py:222-257 | whatever the files hold, every collected body is the lines of a joined text, and none closes its own fragment where inline fragments are what the pattern finds |
| `DocTree.ResolveTree` | scripts/resolve-doc-includes.py:35-54 | the rewrite loop gives `Resolve`, writes nothing after a collection error, and reports no problem exactly when there is none |
| `DocTree.FileFailures` | scripts/check-doc-includes.py:135-158 | the comparison at one file's sites reports exactly the expansion problems and the sites that drift |
| `DocTree.ScanTree` | scripts/check-doc-includes.py:135-158 | the comparison passes if and only if every file with an include expands without a problem and every site has the body of the fragment it names |
| `DocTree.StaleSiteReported` | scripts/check-doc-includes.py:135-158 | each site that names no fragment or has another body is reported, as differing, as undefined or as a fragment of several lines |
| `DocTree.PassingMeans` | scripts/check-doc-includes.py:135-158 | looking only at files that expansion changes misses no such site |
| `DocTree.ResolveThenCheck` | scripts/resolve-doc-includes.py:43-54 | after one pass over a clean tree the tree collects with the same fragments and filled includes, the comparison passes, and a second pass changes nothing |
| `DocCheck.SiteCounts` | scripts/check-doc-includes.py:78-87 | the counting loop gives one line per file and id with its number of directives |
| `DocCheck.SameLockIff` | scripts/check-doc-includes.py:78-87 | two trees have one lock if and only if they have the same directives, counted per file and fragment |
| `DocCheck.RunScan` | scripts/check-doc-includes.py:102-168 | the whole check passes if and only if the tree collects without error, the lock records exactly its sites, every fragment is named, nothing has a problem and every site has its fragment's body |
| `DocCheck.StaleSiteFails` | scripts/check-doc-includes.py:102-168 | one site with another body than its fragment's fails the check, whatever else the tree holds |
| `DocCheck.ResolvedPassesIff` | scripts/check-doc-includes.py:102-168 | after one resolve pass over a clean tree the whole check passes if and only if the lock records the tree's sites and every fragment is named |
| `DocDrift.UnchangedIff` | scripts/check-doc-includes.py:138-158 | the first documented condition, that no file differs after the expansion, does not follow: a file whose every site agrees stays as it is if and only if no site is one empty line and no fragment holds an inline include with other text |
| `DocDrift.PassesYetChanges` | scripts/check-doc-includes.py:138-158 | a tree the check passes and the resolver changes: an empty fragment with a site of one empty line |
| `ShardFeatures.FeatureFailures` | scripts/check-test-shard-features.py:360-399 | the loops report exactly the failures `IsFailure` describes |
| `ShardFeatures.NameOf` | scripts/check-test-shard-features.py:371 | a package's name is its key up to the first space |
| `ShardFeatures.PassesIff` | scripts/check-test-shard-features.py:360-399 | no failure if and only if the shard stays within the canonical resolution, resolves every selected package, and gives each its canonical feature sets |
| `ShardFeatures.Candidates` | scripts/check-test-shard-features.py:567-578 | exactly the undecided `package/feature` spellings of canonical features that a resolved package, alone with its name, lacks |
| `ShardFeatures.Accepted` | scripts/check-test-shard-features.py:582-593 | a trial is kept if and only if it resolves to nothing the canonical resolution lacks |
| `ShardFeatures.TryAll` | scripts/check-test-shard-features.py:581-593 | the inner loop decides every candidate and keeps the search's invariant |
| `ShardFeatures.Suggest` | scripts/check-test-shard-features.py:559-593 | for any resolver the search ends; it fails only if the initial list does not resolve; every longer list on the way kept within the canonical resolution, every rejected candidate broke that, and nothing is left undecided |
| `ShardFeatures.SuggestionKeeps` | scripts/check-test-shard-features.py:559-593 | the final list adds nothing to the canonical resolution if and only if a candidate was kept or the initial list added nothing |
| `PublishGraph.CheckEdges` | scripts/check-publish-graph.py:103-115 | the loops report exactly the publishable crates' shipped dependencies that are never published |
| `PublishGraph.ShippedDeps` | scripts/check-publish-graph.py:91-100 | exactly the local crates declared by path as a normal or a build dependency |
| `PublishGraph.ReadSteps` | scripts/check-publish-graph.py:123-131 | the table holds each name's first step, and the errors are exactly the repeated and the unexpected names |
| `PublishGraph.CheckRelease` | scripts/check-publish-graph.py:118-142 | the loops report exactly the errors `IsReleaseError` describes |
| `PublishGraph.ReleaseClean` | scripts/check-publish-graph.py:118-142 | no error if and only if the steps list each publishable member once, every shipped member dependency no later |
| `PublishGraph.Run` | scripts/check-publish-graph.py:145-158 | both checks pass if and only if no publishable crate of any workspace ships a private one and the steps are a release order |
| `PublishGraph.LastStands` | scripts/check-publish-graph.py:145-150 | of several workspaces with a name the last one's crate is checked |
| `PublishGraph.CombinedCovers` | scripts/check-publish-graph.py:145-158 | where the combined check passes, every private edge of the released workspace has an end whose name a later workspace reuses; so where none is reused there is no such edge |
| `PublishGraph.HidesIff` | scripts/check-publish-graph.py:145-158 | later workspaces with given names can make the check pass if and only if every private edge has an end among them |
| `PublishGraph.CoversIff` | scripts/check-publish-graph.py:145-158 | a passing check speaks for the released workspace, whatever later ones hold under given names, if and only if it has no private edge or one that none of them touches |
| `PublishGraph.ReusedNameHidesEdge` | scripts/check-publish-graph.py:145-158 | where one does, both checks can pass over a released crate that ships a private one |
| `PublishGraph.DependenciesFirst` | scripts/check-publish-graph.py:118-142 | in a clean release everything a crate ships, directly or not, is published strictly before it, unless it is the crate itself |
| `PublishGraph.ReleasedIsAcyclic` | scripts/check-publish-graph.py:118-142 | a clean release leaves no dependency cycle through two crates |
| `PublishGraph.ReleasableIffAcyclic` | scripts/check-publish-graph.py:118-142 | some list of steps passes if and only if there is no such cycle |
| `Timings.SortIsStable` | scripts/summarize-cargo-timings.py:59 | the sort keeps every element, orders the keys and keeps the order of equal ones |
| `Timings.CoveredBefore` | scripts/summarize-cargo-timings.py:51-61 | the samples before one cover exactly the time up to its own clamped time, and all of them the whole build |
| `Timings.HoldsUntilNext` | scripts/summarize-cargo-timings.py:51-61 | each sample holds for as much of the build as lies between its own time and the next sample's, the first from the start and the last to the end |
| `Timings.WeightsIff` | scripts/summarize-cargo-timings.py:51-61 | the durations are non-negative and sum to the wall time if and only if the wall time is not negative and there is a sample, or it is zero |
| `Timings.SharesWithinWall` | scripts/summarize-cargo-timings.py:89-94 | no share exceeds the wall time, a narrower test's share is no larger, and a test's and its opposite's shares sum to it |
| `Timings.Predecessor` | scripts/summarize-cargo-timings.py:119-122 | the inner loop finds the greatest table entry among the units that finished in time, or zero |
| `Timings.LongestChains` | scripts/summarize-cargo-timings.py:114-124 | the table holds, for each unit, the greatest total duration of any chain in start order that ends at it, each unit finished when the next starts |
| `Timings.LongestChain` | scripts/summarize-cargo-timings.py:114-125 | the figure printed is the greatest total duration over all chains |
| `Timings.ChainWithinSpan` | scripts/summarize-cargo-timings.py:110-125 | a chain is no longer than the time from its first start to its last finish, up to one slack per link |

## Left out

- Primality of the two moduli, associativity of point addition and the order of the base point are hypotheses, not results; that the source's constants meet them is not proved.
- SHA-256, HMAC, HKDF, AES-GCM, HPKE and WebPush stay uninterpreted or absent; the vector tables that use them are data.
- Ecdsa.EcdsaSign: nonces are an arbitrary stream in [1, n - 1], because the source draws them from an HMAC generator; that a draw serves is a hypothesis, without which the source does not return.
- Merkle.RootBinds: no collision-free hash of fixed length exists over all strings, so the claim names the colliding pair instead of assuming there is none.
- MessagePack.DecodeEncode: strings are their UTF-8 bytes; the encoding of characters is not modelled.
- Expressions.Lower: lower-casing goes character by character, so the one letter whose lower case depends on its neighbours, the Greek capital sigma, is not modelled.
- MainGate.GateIsSound: only for text whose tokens are a well-formed expression; the evaluator is lenient elsewhere, on empty parentheses for instance.
- AggregateText.EvaluatorsAgreeOnText: values and literals are lower case, because only one of the two evaluators ignores case.
- MergeGate.Verdict: the order of the jobs is a parameter, where the source sorts names; message text is left out.
- Cfg.CfgValueOf: starts from tokens; the pattern that finds them in a predicate's text is not modelled.
- CfgWalk.WalkLoop: starts from the children of a token tree, which the source takes from a grammar not modelled here.
- CfgWalk.GatesAgree: each direction has side conditions on the predicate; `CfgWalk.GatedNotExcluded` and `CfgWalk.ExcludedNotGated` show why.
- DocIncludes.ScanFile: a line is given by what the source's patterns find in it, so the patterns, line numbers and message text are left out, and so is an inline include inside an inline fragment, which the source counts as a site of its own.
- DocTree.ScanTree: that every site has its fragment's body is for tables in which no body closes its own fragment, which `DocTree.CollectedTable` gives for every collected one whose inline fragments are what the pattern can find.
- DocCheck.RunScan: sites are visited file by file, where the source reads each site's file again; the order and repetition of messages are left out.
- ShardFeatures.Candidates: sets are visited in some order, where the source follows the resolver's and sorted order; the result holds for each order.
- PublishGraph.CheckRelease: errors are described by membership; their order and repetition are left out.
- Timings.LongestChains: numbers are reals, so rounding is left out.
- Reading files, running cargo and git, parsing YAML, TOML and JSON, and the scripts whose properties are settled branch by branch.
