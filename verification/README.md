# Presslint verification

A Dafny model of the parts of presslint whose correctness is hard to see from any one function, with proofs.

- **The paint engine.** `Operands`, `ExtGState`, `FontEnv` and `Walker` give the meaning of one content-stream
  operator as a function of values. `SharedWalker` is the walker as it runs, over a heap of reference-counted
  snapshots that are changed in place only when unshared, and refines the value semantics. `SharedIterators` puts any
  number of such walks side by side over one set of snapshots and proves that advancing one leaves the others as they
  were. `SaveNesting` and `WalkerHistory` say what a state means in terms of the operators no `Q` has undone.
  `OperatorMeanings` says what each operator does in terms of the bytes it and its operands are written with.
  `PaintStream` relates the fused iterator to the materialising walk. `CallMachine` is the recursive meaning of a
  traversal over form calls with a stateful resolver, and one machine step against it; `SharedCallMachine` is the
  explicit stack of live iterators that carries it out. `CallMachineProperties`, `TraversalMeaning` and
  `InvocationPaths` hold for every resolver: nesting and locality, who is asked and why a traversal fails, and when
  invocation paths tell descents apart.
- **The inventory and the patch planner.** `Inventory` and `InventoryProperties` build page-object inventories from
  any seed state and prove which colour operators an entry may rewrite. `Actions` and `ActionProperties` plan patches
  and carry that guarantee through to the byte range an executor would edit.
- **The identity digest.** `DigestEncoding` is the self-delimiting stream and its injectivity, `DigestMixer` the
  four-lane 64-bit mixer and its permutation laws, `StableDigest` the object that feeds one to the other, and
  `DigestMeaning` says what both are bit by bit and byte by byte.
- **The byte scanners.** `Lexing` skips tokens. `ByteRegions` reads the same bytes one at a time, without tokens, and
  says which of them lie in a comment, a name or a string. `Extents` and `ExtentProperties` locate balanced
  dictionaries and arrays, and `ExtentRegions` says which ones on bytes and regions alone. `ReferenceScan` finds
  `N G R` references with their token ranges, `ReferenceRegions` says which ones in the same terms, `ReferenceSplice`
  proves what rewriting a reported reference does to a rescan, `ScalarReference` relates the scanner to the
  single-reference parser.
- **The `/Prev` chain and the page tree.** `XrefChain` builds and searches the newest-wins index,
  `XrefChainProperties` and `XrefChainMeaning` say exactly when building stops and what the index means.
  `PageTreeWalk` is the bounded traversal with resource inheritance, `PageTreeProperties` its bounds, conservation and
  completeness, `PageTreeBounds` when the bounds stop it.

Conventions. A byte is a character below 256, so that operators and delimiters read literally. Machine words are
naturals with their bound written out. Code that updates fields or runs a loop is a method or a class and is proved
against a function of its inputs or of its old state; the theorems are about those functions. Errors and absent values
are `Result` and `Option`. `hide` only removes definitions from view to keep proofs quick.

Where the code differs from what one might expect, the lemmas say so and give the exact condition.

- Ordinals of form calls saturate, so two descents can share an invocation path. They do exactly when one program calls
  one name twice in calls number 2^32 - 1 or later (`SharedPathExactly`, `PathsCollideExactly`); a program with at most
  2^32 records that call forms never gets there (`DescentPathsDistinct`), and that bound cannot be raised
  (`BoundIsSharp`).
- An array may close past the end of the dictionary that holds it (`KindsMayCross`). An extent closes before a given
  offset exactly when scanning only the bytes before it finds an extent (`ClosesWithinExactly`, `NestsExactly`).
- A name listed both as image and as form is only ever an image to the combined inventory (`ImageWinsOverForm`). The
  form slice agrees with the form builder exactly when no event invokes such a name (`CombinedRestrictsToKind`).
- An `R` that goes on into a longer word is accepted as the keyword of a reference exactly when it is the last byte of
  the 128-byte window (`RunOnAcceptedExactly`, `RunOnIsAccepted`).
- No inventory entry can have its stroke width adjusted (`StrokeWidthStepsOnlySkip`).

## Model

| member | source | states |
|---|---|---|
| SharedCallMachine.Walk | crates/presslint-paint/src/call_machine.rs:133-203 | The loop over an explicit stack of live iterators on shared snapshots terminates on every stateful resolver whose descents nest to some finite depth; its interactions, final resolver state and result are those of the recursive depth-first expansion over values; and every op the visitor kept still shows, at the end, the snapshot it was visited with |
| SharedCallMachine.Pull | crates/presslint-paint/src/call_machine.rs:142-164 | Asking the innermost iterator for its next op yields what its value frame has next and leaves all other frames and all kept ops as they were |
| SharedCallMachine.Enter | crates/presslint-paint/src/call_machine.rs:193-199 | A descent shares the snapshot of its `Do` event, with no copy, and starts a frame that yields the callee's walk from exactly that state |
| SharedCallMachine.Leave | crates/presslint-paint/src/call_machine.rs:142-151 | Dropping a finished frame gives back its handles and changes nothing any other frame or kept op shows |
| SharedCallMachine.UnwindOpenFrames | crates/presslint-paint/src/call_machine.rs:206-217 | On an abort every open descent gets its return hook once, innermost first, with its own child path, and every handle of the open frames is given back |
| CallMachine.CallResumes | crates/presslint-paint/src/call_machine.rs:166-199 | One form call of the machine against the recursion, for each answer of the resolver: skip, refuse, descend from the event's own snapshot |
| CallMachine.DescendResumes | crates/presslint-paint/src/call_machine.rs:188-199 | A frame pushed for a callee runs its whole expansion and then resumes, or unwinds, its caller |
| CallMachine.ExhaustedResumes | crates/presslint-paint/src/call_machine.rs:142-151 | A finished program returns to its caller with the child path; the root just ends |
| SharedCallMachine.FlatCallEvents | crates/presslint-paint/src/flat_projection.rs:70-84 | The sink gets every visit of the traversal's log, all of them, in order, each with its path, and then, exactly when the traversal failed, its error |
| TraversalMeaning.ErrorsComeLast | crates/presslint-paint/src/flat_projection.rs:70-84 | Such a stream has no error but its last item, and that one exactly when the traversal failed with it |
| TraversalMeaning.FlatDelivers | crates/presslint-paint/src/flat_projection.rs:70-84 | The specification of the flat stream is such a stream |
| CallMachineProperties.DeeperIsSame | crates/presslint-paint/src/call_machine.rs:133-203 | The depth bound of the recursion is no restriction: once a traversal fits, allowing more changes nothing |
| CallMachineProperties.WellFoundedResolversTerminate | crates/presslint-paint/src/call_machine.rs:84-106 | Any resolver with an invariant and a rank that every descent lowers keeps the traversal finite |
| CallMachineProperties.TraversalsAreBracketed | crates/presslint-paint/src/call_machine.rs:98-105 | However a traversal ends, each descent is closed by exactly one return with its child path, in last-in first-out order, and every visit and question happens at the open path |
| CallMachineProperties.OpenPathAtEveryMoment | crates/presslint-paint/src/call_machine.rs:139-186 | After every prefix of a traversal's interactions there is an open path, one shorter than the number of open programs |
| CallMachineProperties.PathLengthIsOpenDescents | crates/presslint-paint/src/call_machine.rs:139-186 | Along any log that can be followed the path grows by one for a descent and shrinks by one for a return |
| InvocationPaths.OrdinalsCountCalls | crates/presslint-paint/src/call_machine.rs:174-175 | In every traversal, call number `k` of each program it runs is presented with ordinal `k`, capped at the last 32-bit value |
| InvocationPaths.OrdinalsCollideExactly | crates/presslint-paint/src/call_machine.rs:174-175 | Two call numbers share an ordinal exactly when they are equal or both at or past the last 32-bit value |
| InvocationPaths.FewCallsNumberExactly | crates/presslint-paint/src/call_machine.rs:174-175 | While the root and every callee the resolver can hand out have at most 2^32 records that call a form, every ordinal is the call's number |
| InvocationPaths.SharedPathExactly | crates/presslint-paint/src/call_machine.rs:174-192 | Two descents of one program share a path exactly when they use one name and both are calls number 2^32 - 1 or later |
| InvocationPaths.PathsCollideExactly | crates/presslint-paint/src/call_machine.rs:174-192 | Over a whole traversal, some two descents share a path exactly when such a pair exists |
| InvocationPaths.BoundIsSharp | crates/presslint-paint/src/call_machine.rs:174-192 | A program that calls one form `n` times in a row keeps its descents apart exactly when `n` is at most 2^32 |
| InvocationPaths.DescentPathsDistinct | crates/presslint-paint/src/call_machine.rs:188-192 | While the root and every callee have at most 2^32 records that call a form, no two descents of a traversal open the same path |
| CallMachineProperties.ExpansionIsLocal | crates/presslint-paint/src/call_machine.rs:139-200 | Everything a program causes is its own visit or lies under one of its own later calls |
| CallMachineProperties.OwnOps | crates/presslint-paint/src/call_machine.rs:139-200 | What a program shows under its own path is a prefix of its walk, all of it when nothing fails, whatever its calls do |
| InvocationPaths.UndisturbedWherePathsDiffer | crates/presslint-paint/src/call_machine.rs:227-260 | Wherever paths tell descents apart, what a program shows under its path is a prefix of its walk alone, with no bound on calls |
| InvocationPaths.DescentsAreUndisturbed | crates/presslint-paint/src/call_machine.rs:227-260 | Under the bound on calls, the ops under the path of any descent are a prefix of that program run alone from the exact state of its `Do` event, the whole absent errors |
| CallMachineProperties.CallerUnaffected | crates/presslint-paint/src/call_machine.rs:193-199 | The root's ops are the same under any two resolvers whose traversals finish |
| TraversalMeaning.ResolverSeesTheLog | crates/presslint-paint/src/call_machine.rs:139-200 | The resolver is asked and told exactly what the log shows, in that order: its final state is the log replayed, and every decision is its answer there |
| TraversalMeaning.FormsAreAskedAbout | crates/presslint-paint/src/call_machine.rs:166-182 | Each op of a program is followed by a question about it exactly when it invokes a name listed as a form and not as an image |
| TraversalMeaning.FailuresAreExplained | crates/presslint-paint/src/call_machine.rs:152-186 | A traversal that ends fails exactly when a refusal or a failing walk occurs in it, and with the error of one of these |
| TraversalMeaning.RefusalsEndTraversals | crates/presslint-paint/src/call_machine.rs:174-186 | After a refusal nothing happens but the return hooks, and its error is the traversal's |
| TraversalMeaning.RootPlaysThePage | crates/presslint-paint/src/call_machine.rs:227-232 | The root plays its program from the page default, all of it when nothing fails |
| SharedWalker.GraphicsStateWalker.StateMut | crates/presslint-paint/src/walker.rs:568-574 | The snapshot is copied exactly when someone else shares it, and is then held by the walker alone |
| SharedWalker.GraphicsStateWalker.Write | crates/presslint-paint/src/walker.rs:568-574 | An assignment through it changes the walker's own state and no snapshot held elsewhere |
| SharedWalker.GraphicsStateWalker.StackEvent | crates/presslint-paint/src/walker.rs:644-659 | `q` and `Q` share and return handles and have the effect of the value semantics, underflow included |
| SharedWalker.GraphicsStateWalker.ColorEvent | crates/presslint-paint/src/walker.rs:607-632 | The colour operators on the heap refine the value semantics; a failed one changes nothing |
| SharedWalker.GraphicsStateWalker.ParameterEvent | crates/presslint-paint/src/walker.rs:660-667 | `cm`, `Tr` and `Tf` on the heap refine the value semantics |
| SharedWalker.GraphicsStateWalker.ApplyGsFont | crates/presslint-paint/src/walker.rs:833-849 | A `gs` makes the font selection indeterminate unless its resource proves otherwise |
| SharedWalker.GraphicsStateWalker.ApplyGsParams | crates/presslint-paint/src/walker.rs:850-856 | The seven parameters are untouched without an environment, layered on a hit, all unresolved on a miss |
| SharedWalker.GraphicsStateWalker.ApplyExtGState | crates/presslint-paint/src/walker.rs:826-857 | Both effects of one `gs`, possibly over two copies, are one change of the value |
| SharedWalker.GraphicsStateWalker.EventKindOf | crates/presslint-paint/src/walker.rs:634-719 | Dispatch on the operator refines the value semantics for every operator |
| SharedWalker.GraphicsStateWalker.Step | crates/presslint-paint/src/walker.rs:583-599 | A step emits the event and reaches the state of the value semantics; a failed step changes nothing; no snapshot of an earlier op, the save stack or the seed changes value |
| SharedWalker.PaintOps.constructor | crates/presslint-paint/src/paint_program.rs:114-130 | A walk starts from the caller's shared seed with an empty save stack |
| SharedWalker.PaintOps.Next | crates/presslint-paint/src/paint_program.rs:174-190 | The iterator yields the items in order, at most one error, and then nothing for ever |
| SharedWalker.Collect | crates/presslint-paint/src/walker.rs:989-999 | At the end of a walk every retained event still shows the snapshot the value semantics gives it |
| SharedIterators.Advance | crates/presslint-paint/src/call_machine.rs:234-239 | Among any number of started walks over shared snapshots, advancing any one yields its next item and leaves the value, save stack and pending items of all others, and every snapshot held outside, as they were |
| SharedIterators.RunCallee | crates/presslint-paint/src/call_machine.rs:234-239 | A callee started from a kept op and run to its end, over any stack of started walks, leaves all of them and everything kept as they were, and gives back every handle |
| SharedIterators.Open | crates/presslint-paint/src/paint_program.rs:114-130 | A walk started from a shared handle joins the others and yields the items of its program from that snapshot |
| PaintStream.StreamingIsMaterialising | crates/presslint-paint/src/walker.rs:989-999 | Collecting the streamed ops is the materialising walk, error and all |
| PaintStream.ItemsFollowRun | crates/presslint-paint/src/paint_program.rs:174-190 | Item `i` is the event of record `i` at the walk's state; an error can only be last, and a stream without one covers every record |
| SaveNesting.PopReturns | crates/presslint-paint/src/walker.rs:649-659 | A pop puts back exactly what the push it closes found, save stack included |
| SaveNesting.StateIsReplay | crates/presslint-paint/src/walker.rs:644-659 | Over any save-and-restore history the state is the seed with the moves still in force applied in order |
| WalkerHistory.WalkIsHistory | crates/presslint-paint/src/walker.rs:583-599 | Every walk is such a history: `q` saves, `Q` restores, everything else acts on the state alone |
| WalkerHistory.BalancedBlockRestores | crates/presslint-paint/src/walker.rs:644-659 | A block between a `q` and its matching `Q` leaves the whole walker as it was |
| WalkerHistory.UnderflowExactly | crates/presslint-paint/src/walker.rs:649-657 | Underflow is reported exactly at a well-formed `Q` with no open `q` in the local walk |
| WalkerHistory.StateIsEffectsInForce | crates/presslint-paint/src/walker.rs:583-599 | At every point the state is the seed with the operators no `Q` has undone applied in order |
| WalkerHistory.CaseSelectsSide | crates/presslint-paint/src/walker.rs:613-631 | Upper-case colour operators set the stroking colour, and their lower-case forms do the same to the other side |
| WalkerHistory.EffectiveColor | crates/presslint-paint/src/walker.rs:721-811 | Each side's space and spot names come from the last space-setting operator in force, components and source from the last colour operator in force, else from the seed |
| WalkerHistory.MatrixAndParamsCompose | crates/presslint-paint/src/walker.rs:660-665 | At every point the matrix is the product of the `cm` operands in force applied to the seed, and the parameters one application of the composed `gs` parameters |
| WalkerHistory.EffectiveTextState | crates/presslint-paint/src/walker.rs:859-891 | At every point rendering mode and font are those of the last record in force that sets them, else the seed's |
| WalkerHistory.StraightLine | crates/presslint-paint/src/walker.rs:826-857 | Over a run without `q` and `Q` all operators are in force, so the product and the composition range over the whole run |
| OperatorMeanings.DeviceOperatorsExactly | crates/presslint-paint/src/walker.rs:607-632 | Exactly `G`, `g`, `RG`, `rg`, `K` and `k` set device colours, each in its family, on its side, with its number of operands |
| OperatorMeanings.PaintOperatorsExactly | crates/presslint-paint/src/walker.rs:669-678 | Exactly ten operators paint, and each uses the stroking and the nonstroking colour as its spelling says |
| OperatorMeanings.ShowOperatorsExactly | crates/presslint-paint/src/walker.rs:679-706 | Exactly four operators show text, each with its number of operands |
| OperatorMeanings.OtherOperatorsExactly | crates/presslint-paint/src/walker.rs:607-718 | The other supported operators, each by its spelling and by no other |
| OperatorMeanings.DeviceColorMeans | crates/presslint-paint/src/walker.rs:721-731 | A device-colour operator is accepted exactly with as many numbers as components; they become the components in operand order, and nothing else changes |
| OperatorMeanings.AfterDeviceColor | crates/presslint-paint/src/walker.rs:721-731 | After `a b c rg` in a walk the nonstroking components are those three values in order, and so for the whole family |
| OperatorMeanings.MatrixMeans | crates/presslint-paint/src/walker.rs:660-665 | `cm` takes six numbers, operand `k` is field `k`, and every point goes through the new matrix first and the old one after it |
| OperatorMeanings.SelectSpaceMeans | crates/presslint-paint/src/walker.rs:742-791 | `CS` and `cs` select the first resource of the name, at its initial colour and with its spot names, or an unknown resource |
| OperatorMeanings.SetComponentsMeans | crates/presslint-paint/src/walker.rs:760-777 | `SC`, `SCN`, `sc` and `scn` replace components in operand order and, with a last name, the resource name; the space stays |
| OperatorMeanings.RenderingModeMeans | crates/presslint-paint/src/walker.rs:881-891 | `Tr` takes one whole number of 32 bits; the mode is the one of that number, and modes 0 and 2 fill, 1 and 2 stroke |
| OperatorMeanings.FontMeans | crates/presslint-paint/src/walker.rs:859-879 | `Tf` keeps the name without a font environment, else selects the first binding the name spells, or makes the font unknown |
| OperatorMeanings.GsMeans | crates/presslint-paint/src/walker.rs:826-857 | `gs` layers what the first resource of the name carries, field by field, and decides the font; a miss makes everything unknown |
| OperatorMeanings.ShowMeans | crates/presslint-paint/src/walker.rs:902-915 | Shown text is reported in the rendering mode of the state, which stays |
| OperatorMeanings.PaintMeans | crates/presslint-paint/src/walker.rs:893-900 | Painting takes no operands and changes nothing |
| OperatorMeanings.InvokeMeans | crates/presslint-paint/src/walker.rs:707-709 | `Do` takes one name, reports it and changes nothing |
| OperatorMeanings.SaveAndRestoreMean | crates/presslint-paint/src/walker.rs:644-659 | `q` saves the state and `Q` puts the last saved one back; neither takes operands, and `Q` needs a saved state |
| OperatorMeanings.EventsTellTheState | crates/presslint-paint/src/walker.rs:583-599 | Every event names its record, carries the state after it and agrees with that state |
| OperatorMeanings.OtherMeans | crates/presslint-paint/src/walker.rs:715-718 | Any other operator is reported and changes nothing, whatever its operands |
| OperatorMeanings.UnreadableRecordFails | crates/presslint-paint/src/walker.rs:583-590 | A record that does not address the source fails and is blamed itself |
| OperatorMeanings.PageStartsPlain | crates/presslint-paint/src/paint_program.rs:114-130 | A page starts with the identity matrix, both colours black in the grey space, filled text and nothing else set |
| Operands.ConcatComposesTransforms | crates/presslint-paint/src/operands.rs:245-256 | Concatenating `m` onto `n` transforms every point by `m` first and then by `n` |
| Operands.ConcatAssociates | crates/presslint-paint/src/operands.rs:245-256 | Matrix concatenation is associative over the reals |
| Operands.ColorOperands | crates/presslint-paint/src/operands.rs:39-67 | The loop over `sc`/`scn` operands gives the components and the trailing name, or the error of the first operand out of place |
| Operands.ColorOperandsExactly | crates/presslint-paint/src/operands.rs:33-67 | Operands are accepted exactly when they are finite numbers followed by at most one name with nothing after it, and are returned in source order |
| Operands.ColorOperandsRejected | crates/presslint-paint/src/operands.rs:39-67 | They are rejected exactly with the fault of the first operand that is out of place |
| Operands.NumericOperandsExactly | crates/presslint-paint/src/operands.rs:221-243 | Fixed-count operands are accepted exactly when there are that many and each reads as a finite number, and are returned in source order |
| Operands.NumericOperandsRejected | crates/presslint-paint/src/operands.rs:116-134 | They are rejected exactly for a wrong count, or with the fault of the first operand that is no number |
| Operands.IntegerOperandExactly | crates/presslint-paint/src/operands.rs:153-171 | One whole number that fits 32 signed bits |
| Operands.FontOperandsExactly | crates/presslint-paint/src/operands.rs:195-219 | One name and one finite number, in that order |
| ExtGStates.LayeringLaws | crates/presslint-paint/src/extgstate_env.rs:206-249 | Layering parameters is associative with the parameters of an empty dictionary as identity, and a miss acts as a constant |
| ExtGStates.GsIsApplication | crates/presslint-paint/src/walker.rs:850-856 | Every `gs`, hit or miss, is one application of a fixed set of parameters |
| FontEnvs.DecodePdfName | crates/presslint-paint/src/font_env.rs:155-180 | Decoding succeeds with a name exactly when the raw bytes spell it and fails exactly when they spell no name; the fast path and the escape loop agree |
| FontEnvs.DecodeEscapesSpells | crates/presslint-pdf/src/source_utils.rs:198-232 | Decoding inverts spelling, both ways |
| FontEnvs.NoEscapesCopies | crates/presslint-paint/src/font_env.rs:155-158 | Without `#` the escape loop would have copied its input, unless a null byte stops it |
| FontEnvs.EscapedNameRoundTrips | crates/presslint-paint/src/font_env.rs:155-189 | Escaping every byte of a null-free name and decoding gives the name back |
| FontEnvs.SpellingsResolveAlike | crates/presslint-paint/src/font_env.rs:137-147 | All spellings of a name resolve to the same binding |
| FontEnvs.DifferentNamesSeparate | crates/presslint-paint/src/font_env.rs:53-59 | Two decodable raw names resolve alike in every environment exactly when they spell a common name |
| FontEnvs.ResolveFontExactly | crates/presslint-paint/src/font_env.rs:137-147 | A raw name resolves to a target exactly when the first binding whose name it spells has that target |
| Inventories.CollectEntries | crates/presslint-inventory/src/inventory.rs:500-512 | Entries in event order, each told how many were emitted before it |
| Inventories.CollectEntriesFromOps | crates/presslint-inventory/src/inventory.rs:545-558 | Driving a started iterator, classifying each op and dropping it gives what classifying the materialised events gives, or the first error instead of any entry; nothing held elsewhere changes and every handle is given back |
| Inventories.BuildInventory | crates/presslint-inventory/src/inventory.rs:336-365 | The seeded builder, run on the caller's shared snapshot, collects the entries of `EntryMeans` with the capability withheld as in `RewriteKeptExactly`; the snapshot keeps its value |
| InventoryProperties.SequencesAreConsecutive | crates/presslint-inventory/src/inventory.rs:545-558 | Entry `k` of any inventory has sequence `k`, as far as 32 bits reach |
| InventoryProperties.ColorIsSeedOrLocal | crates/presslint-paint/src/walker.rs:721-811 | At every point of a walk a side's colour is the seed's, or its source is the local colour operator in force for that side |
| InventoryProperties.RewriteKeptExactly | crates/presslint-inventory/src/inventory.rs:859-883 | The rewrite capability is kept exactly by painting entries with a colour, each of whose colours is unsourced or differs from the seed's colour of its side; everything else of the entry stays |
| InventoryProperties.LocalColorsRegainRewrite | crates/presslint-inventory/src/inventory.rs:845-858 | A painting event keeps it whenever on each observed side a local colour operator governs whose range or colour is not the seed's |
| InventoryProperties.GoverningRecordIsSource | crates/presslint-paint/src/walker.rs:721-811 | The colour operator that governs a side is the source of its colour |
| InventoryProperties.EntryMeans | crates/presslint-inventory/src/inventory.rs:560-724 | Which events have an entry, of which kind, with which capabilities, and observing which colours of their state |
| InventoryProperties.EntryIsIdentified | crates/presslint-inventory/src/inventory.rs:679-724 | The digest of an entry is that of the place, the action, the colours and the font of its own event |
| InventoryProperties.EveryEventIsClassified | crates/presslint-inventory/src/inventory.rs:500-512 | Each event's entry, if any, comes right after those of the events before it, and later events only add |
| InventoryProperties.KeptRewriteIsLocal | crates/presslint-inventory/src/inventory.rs:845-883 | From any seed, every sourced colour of an entry that keeps the capability points at the colour operator of the walked stream that governs, at the record where the entry paints, the side the colour is used on |
| InventoryProperties.CombinedRestrictsToKind | crates/presslint-inventory/src/inventory.rs:483-558 | The combined inventory restricted to one kind is that kind's own inventory up to sequence and digest: always for vectors, text and images, and for forms exactly when no event invokes a name listed as both image and form |
| InventoryProperties.ImageWinsOverForm | crates/presslint-inventory/src/inventory.rs:491-494 | An event that invokes such a name is an image to the combined inventory and a form to the form builder |
| InventoryProperties.PageDefaultWithholdsNothing | crates/presslint-inventory/src/inventory.rs:859-883 | From the page default nothing is ever withheld |
| InventoryProperties.PageDefaultIsMaterialised | crates/presslint-inventory/src/inventory.rs:514-539 | From the page default the seeded builder is: walk everything, then classify |
| InventoryProperties.ExpandedStreamsDiffer | crates/presslint-inventory/src/inventory.rs:726-799 | Paint instances of one template with different sequences or invocation paths feed the digest different streams |
| InventoryProperties.ExpandedEntryMeans | crates/presslint-inventory/src/inventory.rs:726-799 | An expanded entry differs from its template only in sequence, digest and path, and its digest covers both |
| InventoryProperties.ExpansionAtPageLevel | crates/presslint-inventory/src/inventory.rs:726-799 | Re-stamping an entry with its own sequence and the empty path changes nothing |
| Actions.ConvertColorBoundary | crates/presslint-actions/src/lib.rs:211-251 | The flag loop decides by precedence: no process colour, one without a source, two sourced, exactly one |
| Actions.PlanPatchForAction | crates/presslint-actions/src/lib.rs:253-270 | Only colour conversion needs a boundary and plans a patch |
| Actions.PlanStep | crates/presslint-actions/src/lib.rs:298-351 | Targets, patches and skips of a step, each in inventory order, capability before eligibility |
| ActionProperties.ConvertibleExactly | crates/presslint-actions/src/lib.rs:205-251 | A conversion may edit the source record of a colour exactly when it is the entry's only process colour and is sourced |
| ActionProperties.MissingSourceExactly | crates/presslint-actions/src/lib.rs:231-250 | A missing source is reported exactly when some process colour has none; the planner's last branch never runs |
| ActionProperties.UnconvertibleExactly | crates/presslint-actions/src/lib.rs:211-251 | No process colour, an unsourced one, more than one: each rejection holds exactly then |
| ActionProperties.ProcessSpacesAreDeviceSpaces | crates/presslint-actions/src/lib.rs:198-203 | The process spaces are those the device-colour operators set |
| ActionProperties.VerdictExactly | crates/presslint-actions/src/lib.rs:298-343 | Each action asks for its capability, before anything else is looked at |
| ActionProperties.PageBoxPlansAreEmpty | crates/presslint-actions/src/lib.rs:298-310 | Page-box edits select no entries |
| ActionProperties.EveryEntryIsJudged | crates/presslint-actions/src/lib.rs:298-343 | Each entry's verdict comes right after those of the entries before it |
| ActionProperties.TargetsAndSkipsPartition | crates/presslint-actions/src/lib.rs:310-343 | Targets and skips together are the matched entries, nothing lost or invented |
| ActionProperties.OnePatchPerTarget | crates/presslint-actions/src/lib.rs:253-270 | Colour conversion plans one patch per target, every other action none |
| ActionProperties.EveryPatchIsLocal | crates/presslint-actions/src/lib.rs:211-351 | From any seed, every patch planned from the inventory of a stream edits the record of that stream whose colour operator is in force, where its entry paints, for the side on which the entry uses its sole process colour, in the page and scope of the walk |
| ActionProperties.EveryRecipePatchIsLocal | crates/presslint-actions/src/lib.rs:298-351 | The same for every patch of every step of a recipe's plan |
| ActionProperties.StrokeWidthStepsOnlySkip | crates/presslint-actions/src/lib.rs:318-324 | A stroke-width step skips every entry it matches |
| DigestEncoding.StreamInjective | crates/presslint-inventory/src/digest.rs:10-118 | Two objects with the same stream agree on kind, page, sequence, scope, path, index, ranges, kind-specific fields and colours, spot-name lists aside |
| DigestEncoding.StreamIdentity | crates/presslint-inventory/src/digest.rs:10-118 | Exactly: streams are equal if and only if those identities are |
| DigestEncoding.ColorsIgnoreSpotNames | crates/presslint-inventory/src/digest.rs:212-214 | The omission of spot-name lists is real: the stream does not change with them |
| DigestEncoding.HeaderReads | crates/presslint-inventory/src/digest.rs:99-118 | The shared header can be read back from any stream that starts with it, with the rest left over |
| DigestEncoding.ColorsRead | crates/presslint-inventory/src/digest.rs:24-26 | The trailing colour list can be read back although it carries no count |
| DigestEncoding.FontReads | crates/presslint-inventory/src/digest.rs:236-258 | The font selection can be read back from any stream that starts with it |
| DigestMeaning.StreamLayout | crates/presslint-inventory/src/digest.rs:10-82 | Every stream is the length and the spelling of its kind, the header, and the payload, at these offsets |
| DigestMeaning.PageHeaderLayout | crates/presslint-inventory/src/digest.rs:99-118 | The header of page content, field by field at its offset |
| DigestMeaning.PayloadLayout | crates/presslint-inventory/src/digest.rs:10-82 | What follows the header of each kind, piece by piece at its offset |
| DigestMeaning.ColorLayout | crates/presslint-inventory/src/digest.rs:194-221 | Usage, space, component count and components, spot name, source, at their offsets |
| DigestMeaning.LittleEndianDigits | crates/presslint-inventory/src/digest.rs:152-168 | Byte `i` of a word is its `i`-th digit to base 256 |
| DigestMeaning.TagsCountVariants | crates/presslint-inventory/src/digest.rs:283-332 | Every tag is the position of its variant in declaration order |
| StableDigests.StableDigest.PushU8 | crates/presslint-inventory/src/digest.rs:144-150 | One byte updates the four lanes by the mixer |
| StableDigests.StableDigest.PushBytes | crates/presslint-inventory/src/digest.rs:137-142 | Absorbs the length and then the bytes |
| StableDigests.StableDigest.PushEventHeader | crates/presslint-inventory/src/digest.rs:99-118 | Absorbs exactly the encoded header |
| StableDigests.StableDigest.PushColorObservation | crates/presslint-inventory/src/digest.rs:194-221 | Absorbs exactly the encoded colour, without its spot-name list |
| StableDigests.StableDigest.PushTextRenderingMode | crates/presslint-inventory/src/digest.rs:223-234 | The pushes per mode, tag first and the value of an unsupported one after it, absorb exactly the encoded mode |
| StableDigests.StableDigest.PushFontSelection | crates/presslint-inventory/src/digest.rs:236-258 | The pushes per kind of selection, field by field, absorb exactly the encoded selection |
| StableDigests.BuildObjectDigest | crates/presslint-inventory/src/digest.rs:10-82 | All four object digests: absorb the whole stream of the object into fresh lanes and finish |
| DigestMixer.MixLanePermutes | crates/presslint-inventory/src/digest.rs:144-150 | For a fixed byte, xor, odd multiplication and xor-shift permute the 64-bit words: an inverse exists and undoes them both ways |
| DigestMeaning.MixLaneMeans | crates/presslint-inventory/src/digest.rs:144-150 | Bit by bit: byte and lane number added without carry, multiplication by 2^40 + 0x1b3 modulo 2^64, high half added to the low half without carry |
| DigestMeaning.EmptyStreamDigest | crates/presslint-inventory/src/digest.rs:126-135 | The lanes before anything is absorbed |
| DigestMixer.MixLaneSeparatesBytes | crates/presslint-inventory/src/digest.rs:144-150 | For a fixed lane different bytes give different lanes |
| DigestMixer.CommonSuffixSeparates | crates/presslint-inventory/src/digest.rs:137-150 | Absorbing a common suffix of any length never merges two different states |
| DigestMixer.OneByteChangeShows | crates/presslint-inventory/src/digest.rs:137-150 | Two streams that differ in one byte leave different states |
| DigestMixer.FinishInjective | crates/presslint-inventory/src/digest.rs:266-273 | The 32 output bytes determine the four lanes |
| Lexing.RunOf | crates/presslint-pdf/src/source_utils.rs:181-186 | The longest prefix in a byte class, for whitespace, digits, names, scalars and comments |
| Lexing.ParseU64Decimal | crates/presslint-pdf/src/source_utils.rs:19-26 | Checked accumulation gives the decimal value, and nothing exactly when it exceeds 64 bits |
| Lexing.WrittenReadsBack | crates/presslint-pdf/src/source_utils.rs:19-26 | Reading a number written in decimal gives it back |
| Lexing.StringBodyIsLocal | crates/presslint-pdf/src/source_utils.rs:276-298 | Where a literal string ends is decided by its own bytes alone |
| Extents.InspectDictionaryExtent | crates/presslint-pdf/src/dictionary_extent.rs:85-180 | The cursor loop stops at the first lexeme that takes the `<<` depth to zero or past the bound, with the exact maximum depth |
| Extents.InspectArrayExtent | crates/presslint-pdf/src/array_extent.rs:87-185 | The same for `[` and `]`, a `<<` counting as plain bytes |
| ExtentProperties.ClosesAtFirstReturn | crates/presslint-pdf/src/dictionary_extent.rs:151-165 | The reported close is the lexeme where depth first returns to zero; the reported maximum is attained, never exceeded and at most 256 |
| ExtentProperties.OutcomeExactly | crates/presslint-pdf/src/dictionary_extent.rs:128-180 | Success, too deep, unterminated string and unterminated each hold exactly under their condition on the depths |
| ExtentRegions.OutcomeByBytes | crates/presslint-pdf/src/dictionary_extent.rs:85-180 | Every outcome on bytes alone: brackets count outside comments and strings, the extent is where their depth first returns to zero, too deep where it passes 256 before that, and otherwise unterminated, in a string or not |
| ExtentRegions.ExtentStarts | crates/presslint-pdf/src/array_extent.rs:87-128 | Blanks are skipped, and then the bracket must stand there; each early rejection holds exactly then |
| ExtentRegions.LexemeLies | crates/presslint-pdf/src/dictionary_extent.rs:100-178 | Each step of the cursor is a run of bytes that changes the depth by its bracket, at its last byte, and by nothing else |
| ExtentProperties.NestedScanSucceeds | crates/presslint-pdf/src/array_extent.rs:130-178 | A fresh scan at any bracket the outer scan counted succeeds, closes strictly inside the outer extent and sees less depth |
| ExtentProperties.ClosesWithinExactly | crates/presslint-pdf/src/array_extent.rs:87-185 | For either bracket and any cut, an extent closes before the cut exactly when scanning only the bytes before the cut finds an extent, and it is then the same one |
| ExtentProperties.NestsExactly | crates/presslint-pdf/src/array_extent.rs:130-178 | A bracket of either kind inside an extent of either kind closes inside it exactly when the bytes before the outer close already hold its whole extent |
| ExtentProperties.KindsMayCross | crates/presslint-pdf/src/array_extent.rs:136-138 | The condition can fail: a dictionary that closes inside its array value |
| ReferenceScan.ScanReferenceTokensInSpan | crates/presslint-pdf/src/object_body_references.rs:488-595 | The window loop records, into either sink, what the token sequence of the span says |
| ReferenceRegions.ReportedAreWritten | crates/presslint-pdf/src/object_body_references.rs:350-373 | Everything reported is two numbers and a bare `R`, no byte of them in a comment, name or string, with only blanks and comments between |
| ReferenceRegions.WrittenAreReported | crates/presslint-pdf/src/object_body_references.rs:488-595 | And everything written so, with numbers that fit, is reported, unless 65536 references were |
| ReferenceRegions.SkippedAreOversized | crates/presslint-pdf/src/object_body_references.rs:562-588 | The skips, in order, are exactly the written references with a number that does not fit, with the reason, up to the point where the scan stops |
| ReferenceRegions.TokenLies | crates/presslint-pdf/src/object_body_references.rs:505-593 | Each token of the scanner against regions read byte by byte, with escapes and balanced parentheses |
| ByteRegions.StringLeads | crates/presslint-pdf/src/source_utils.rs:270-297 | A literal string lasts to the parenthesis that balances it, escapes aside, and for ever if there is none |
| ByteRegions.ClassesAgree | crates/presslint-pdf/src/source_utils.rs:188-197 | The byte classes are those of the PDF standard's tables |
| ReferenceScan.ScanIndirectReferencesInSpan | crates/presslint-pdf/src/object_body_references.rs:375-386 | The census is the ranges report without its ranges |
| ReferenceScan.ScanIndirectReferenceRangesInSpan | crates/presslint-pdf/src/object_body_references.rs:399-411 | The ranges report of the span |
| ReferenceScan.ReferenceSink.RecordReference | crates/presslint-pdf/src/object_body_references.rs:430-475 | The two sinks differ in keeping token ranges and in nothing else |
| ReferenceSplice.WindowExactly | crates/presslint-pdf/src/object_body_references.rs:350-357 | The window is full exactly when two integer tokens with only blanks between and after them end there |
| ReferenceSplice.FoundAreReferences | crates/presslint-pdf/src/object_body_references.rs:562-588 | Everything found is two integers and the bare keyword with only blanks between, in source order, sharing no token |
| ReferenceSplice.EveryReferenceIsFound | crates/presslint-pdf/src/object_body_references.rs:562-588 | Every such triple with numbers in range is found unless the cap was reached |
| ReferenceSplice.RangesDecode | crates/presslint-pdf/src/object_body_references.rs:42-58 | Every reported range lies in the span and addresses exactly the digits of its number or the keyword |
| ReferenceSplice.RangesAreOrdered | crates/presslint-pdf/src/object_body_references.rs:42-58 | Object number, generation, keyword, next reference: ranges are disjoint and in order |
| ReferenceSplice.LexIsLocal | crates/presslint-pdf/src/object_body_references.rs:505-593 | A token does not change when what follows it begins alike or with another digit |
| ReferenceSplice.RespelledTokens | crates/presslint-pdf/src/object_body_references.rs:505-593 | Replacing the text of an integer token by any digit run leaves every other token as it was |
| ReferenceSplice.SameFindings | crates/presslint-pdf/src/object_body_references.rs:562-588 | New in-range numbers for one reference leave every finding in place |
| ReferenceSplice.SpliceThenRescan | crates/presslint-pdf/src/object_body_references.rs:42-58 | Rewriting the two number ranges of one reported reference and rescanning the adjusted span reports the same references but that one, the same skips and truncation, and every range where the splice moved it |
| ScalarReference.AcceptedParts | crates/presslint-pdf/src/source_utils.rs:64-138 | What the reference parser accepts is digits, whitespace, digits, whitespace and the keyword |
| ScalarReference.ParsedExactly | crates/presslint-pdf/src/source_utils.rs:64-138 | Acceptance and every rejection, exactly, on the bytes of the window |
| ScalarReference.ScalarChecksMean | crates/presslint-pdf/src/object_body_references.rs:597-656 | What both checks report for a body shaped as a reference, with numbers that fit or not |
| ScalarReference.PlainScalarsReportNothing | crates/presslint-pdf/src/object_body_references.rs:597-656 | Any other scalar body is reported as having no reference and no skip |
| ScalarReference.KeywordEndsToken | crates/presslint-pdf/src/source_utils.rs:122-138 | An accepted keyword ends its token in the whole buffer, or is the last byte of the window |
| ScalarReference.RunOnAcceptedExactly | crates/presslint-pdf/src/source_utils.rs:122-138 | Extending the keyword of an accepted reference by a regular byte leaves it accepted exactly when the keyword is the last byte of the window |
| ScalarReference.RunOnIsAccepted | crates/presslint-pdf/src/source_utils.rs:122-138 | A reference whose keyword goes on is accepted when blanks push its `R` to the end of the window |
| ScalarReference.ScalarSiblingsAgree | crates/presslint-pdf/src/object_body_references.rs:597-664 | For a body that is one reference, the census and the range-bearing check report the same reference or the same skip |
| XrefChain.OpenChainSection | crates/presslint-pdf/src/classic_xref_chain.rs:241-292 | Bounds, then cycle, then classification, then the table, each with its own stop |
| XrefChain.MergeSectionEntries | crates/presslint-pdf/src/classic_xref_chain.rs:297-321 | Merging a section keeps the first entry of each number and stops exactly when the merged size would pass the bound |
| XrefChain.MergeIsOrdered | crates/presslint-pdf/src/classic_xref_chain.rs:297-321 | The merged entries are strictly ascending and mention exactly the numbers of the sections |
| XrefChain.BuildClassicXrefChain | crates/presslint-pdf/src/classic_xref_chain.rs:157-236 | The loop ends as the path of `/Prev` links from the start offset says, with the newest root, the largest size and the merged entries; so the last branch, a finished chain without a root, never runs |
| XrefChain.ResolveChainObject | crates/presslint-pdf/src/classic_xref_chain.rs:330-357 | Binary search over ascending entries gives the first entry for the number, in use or free as that entry is, or not found exactly when there is none |
| XrefChainProperties.OutcomeExactly | crates/presslint-pdf/src/classic_xref_chain.rs:157-236 | On every `/Prev` graph there is exactly one stop, characterised both ways for success and for every rejection |
| XrefChainMeaning.BuiltExactly | crates/presslint-pdf/src/classic_xref_chain.rs:157-236 | Sections become a chain exactly when each is where the ones before lead, they are at most 64, distinct, in bounds and sound, with at most a million numbers, and the last has no link |
| XrefChainMeaning.StoppedExactly | crates/presslint-pdf/src/classic_xref_chain.rs:157-321 | The builder stops for a reason exactly when some chain so far leads to a section that cannot join it for that reason |
| XrefChainMeaning.RootAndSize | crates/presslint-pdf/src/classic_xref_chain.rs:190-211 | A finished chain has the root of its newest section and the largest size of any |
| XrefChainProperties.ChainIsBounded | crates/presslint-pdf/src/classic_xref_chain.rs:169-177 | At most 64 sections are merged, and a finished chain has at least one and a root |
| XrefChainProperties.SectionsAreLinked | crates/presslint-pdf/src/classic_xref_chain.rs:161-227 | A success lists distinct in-bounds offsets, each the `/Prev` of the one before, and the last has none |
| XrefChainProperties.RejectionsAreExplained | crates/presslint-pdf/src/classic_xref_chain.rs:241-292 | A cycle stop names an offset met twice on the path, a bounds stop an offset at or past the end, a limit stop a chain longer than the bound |
| XrefChainProperties.MissingRootUnreachable | crates/presslint-pdf/src/classic_xref_chain.rs:219-227 | Every finished chain has a root, and the rejection that branch would give is given exactly for a start offset past the end |
| XrefChainProperties.MergeKeepsFirst | crates/presslint-pdf/src/classic_xref_chain.rs:294-321 | Looking up the merged map is finding the first entry in the list it was merged from |
| XrefChainProperties.NewestWins | crates/presslint-pdf/src/classic_xref_chain.rs:25-40 | Entries are ascending, and lookup is the first match over all sections from newest to oldest in source order |
| XrefChainMeaning.LookupExactly | crates/presslint-pdf/src/classic_xref_chain.rs:25-40 | A number is located in use or free as the first entry for it in the newest section that mentions it says, and absent exactly when no section mentions it |
| XrefChainProperties.NewerShadowsOlder | crates/presslint-pdf/src/classic_xref_chain.rs:28-31 | A section that mentions a number decides it, free or in use, whatever older sections say |
| XrefChainProperties.MergeCountsNumbers | crates/presslint-pdf/src/classic_xref_chain.rs:305-316 | The merged size is the number of distinct object numbers |
| XrefChainProperties.EntryLimitExactly | crates/presslint-pdf/src/classic_xref_chain.rs:303-317 | The entry-limit stop happens exactly when a sound section takes the distinct numbers past the bound |
| PageTreeWalk.InspectDocument | crates/presslint-pdf/src/default_color_spaces.rs:163-202 | Fails only when the root cannot be expanded; otherwise ends in the state of the walk function |
| PageTreeWalk.DefaultColorSpaceWalk.ProcessNode | crates/presslint-pdf/src/default_color_spaces.rs:257-306 | The loop over a node's kids refines the walk function and terminates on every graph |
| PageTreeWalk.DefaultColorSpaceWalk.InspectPage | crates/presslint-pdf/src/default_color_spaces.rs:308-339 | A page gets the next ordinal and the inherited context with its own resources applied, or a skip when its dictionary fails |
| PageTreeWalk.DefaultColorSpaceWalk.DescendInto | crates/presslint-pdf/src/default_color_spaces.rs:341-413 | Cycle, depth and node bounds are tested in that order before anything is expanded |
| PageTreeWalk.DefaultColorSpaceWalk.StopDescent | crates/presslint-pdf/src/default_color_spaces.rs:415-426 | The first bound stop is kept and every stop is recorded as a skip |
| PageTreeProperties.WalkIsBounded | crates/presslint-pdf/src/default_color_spaces.rs:341-413 | The count equals the visited set and its bound, no object is expanded twice or too deep, ordinals count from zero, and the reported truncation is the first bound stop |
| PageTreeBounds.StopsAreReal | crates/presslint-pdf/src/default_color_spaces.rs:341-413 | A node-bound skip is reported only by a walk that visited exactly 65536 nodes, a depth skip only for a kid at level 65, a cycle skip only for an object the walk visited |
| PageTreeBounds.UntruncatedExactly | crates/presslint-pdf/src/default_color_spaces.rs:341-413 | No bound stops the walk exactly when the tree has at most 64 levels, at most 65536 nodes and no object number twice, and then it visits them all |
| PageTreeBounds.CoverableIsComplete | crates/presslint-pdf/src/default_color_spaces.rs:257-339 | Such a tree is reported whole, in document order, with the resources along each path |
| PageTreeBounds.CoverableSkips | crates/presslint-pdf/src/default_color_spaces.rs:257-306 | And skips exactly the kids that are no pages or cannot be read, in document order |
| PageTreeBounds.PageResources | crates/presslint-pdf/src/default_color_spaces.rs:308-326 | A page's own resources are the last step of its path; an unreadable page keeps the inherited ones and is reported |
| PageTreeProperties.EveryKidAccounted | crates/presslint-pdf/src/default_color_spaces.rs:257-306 | The kids of the root and of all expanded nodes are exactly the pages, the skips and the expanded children, with multiplicity |
| PageTreeProperties.UntruncatedIsComplete | crates/presslint-pdf/src/default_color_spaces.rs:257-339 | Without truncation the pages are the pre-order leaves of the whole tree, each with the resources folded along its path |
| PageTreeProperties.NearestResourcesWin | crates/presslint-pdf/src/page_resource_inheritance.rs:46-73 | The nearest dictionary with `/Resources` decides them, an unusable one removes them, and every unusable one is reported |

## Left out

- Floating point: colour components, matrices and font sizes are reals, so rounding, negative zero and the equality of NaN are not modelled; parsing a number and the 64-bit pattern of a float are parameters.
- SharedCallMachine.Walk: the visitor is one that keeps every op it is given; the requirement that calls nest to a finite depth is what termination of the code needs too. What a resolver keeps of an event counts as kept by the visitor.
- InvocationPaths.DescentPathsDistinct: the bound on calls is a condition on the programs, sufficient and sharp (`BoundIsSharp`); the condition that is also necessary looks at which calls a walk makes (`PathsCollideExactly`).
- DigestEncoding.StreamInjective: every number must fit the machine word that carries it; in particular paths are shorter than 2^32 frames.
- StableDigests.BuildObjectDigest: the four digest functions share one method that branches on the kind of object.
- ReferenceScan.ReferenceSink: the two sink types are one class with a flag, since the code abstracts over them with a trait.
- XrefChain.ResolveChainObject: asks for ascending entries, which every built chain has; the order in which the standard library probes is not modelled.
- Page facts: what is read from each page's effective resources, and from form resources, is a set of one-pass case splits over the context proved here.
- Selectors are predicates on inventory entries; a recipe is planned step by step.
- Error offsets and payloads of delegated failures are collapsed to the reason, except where a property names the offset.
- Object headers, body-token classification, xref tables and trailers as bytes: they enter as the outcome of inspecting an offset.
- Top-level dictionary entry spans, stream filters, xref streams and object streams.
- Form `/Matrix`, `/BBox` and transparency-group resets, which the traversal does not model either.
- Colour policy, overprint, output intents, page-box edits, serialisation, the command line and the colour-management library.
- Offsets and lengths are unbounded naturals: additions that could only overflow a 64-bit address space are not modelled.
