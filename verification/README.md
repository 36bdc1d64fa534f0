# MORK: the term engine, symbol interning, parsers and folding sinks

A Dafny model of the parts of MORK in which hard invariants live, with proofs about all inputs, all
runs and all interleavings.

An expression is a flat preorder byte string of four kinds of items: `$` introduces the next variable
level, `_i` refers back to a level, and there are symbols and arities. What a byte means depends on
how many `$` came before it. The model gives the format a pure datatype (`Term`), an encoding
(`Encoding.Enc`) and a meaning (`Encoding.Abs`, the absolute term in a variable space), and every
algorithm that works on bytes is proved against terms.

How the modules build on each other:

- `Items`, `Slices`, `Sets`, `Terms`, `Encoding`, `Numbering`, `Rendering`: tag bytes, terms and substitutions, the
  format, and what it means to write a term with its variables numbered by first occurrence.
- `Traversals`, `Zippers`, `Coroutines`: four ways of reading an expression (recursion, explicit stack,
  breadcrumbs, coroutines) that agree with the one reference fold, and the coroutine sink.
- `Trees`, `Solutions`, `Resolution`, `MostGeneral`: the meaning of unification. Variables range over
  possibly infinite trees, given by their labels at every path. One notion of solution set then covers
  cyclic and acyclic bindings, and the finite theory (most general unifiers) follows from it.
- `Envs`, `UnificationSteps`, `Unification`, `Depths`, `Application`, `StreamApplication`, `ExprUnification`,
  `UnificationReuse`, `Matching`: the imperative engine. `unify` keeps the solution set in every step and terminates
  without its iteration cap, which stops it exactly when more steps on the equations are needed; `apply` and
  `apply_e` resolve bindings, detect cycles exactly, write the same bytes, and give up only on a chain of bindings
  longer than their cap; `_unify` and `unifies_reuse_state` return the most general common instance.
- `Generalisation`, `RelEnvs`, `Memos`, `AntiUnification`, `Folds`, `Sinks`, `SinkOrders`: least general
  generalisations, the memo as a hash table over absolute terms, and the two folding sinks: same bytes for
  every order that completes, and which orders do.
- `HeadTail`: the sink that keeps the first or the last few paths.
- `Substituting`: capture-free de Bruijn substitution in one pass, its identity and its associativity.
- `Slabs`, `Interning`, `InterningSafety`, `InterningRuns`, `InterningAnswers`, `Permits`: the slab memory, the
  interning protocol as atomic steps of any number of threads with up to 128 writers among them, what calls end
  with, and who holds which permit; locks are read off the program counters.
- `Sexprs`, `Printing`, `SexprGrammar`, `TextForm`, `TextGrammar`, `JsonLexing`, `JsonMeanings`, `JsonStrings`,
  `JsonLexers`, `JsonParsing`, `JsonPrinting`, `JsonGrammar`: the three parsers and their printers. Every parser is
  proved against a recursive reader that knows nothing of output bytes, stacks or patching; the reader undoes the
  printer, and a grammar of literal bytes says which texts it reads, and as what.

Caps are explicit. `MAX_UNIFY_ITER`, `APPLY_DEPTH` and `AU_MAX_DEPTH` are parameters that may be absent, so
that what is proved without them is visible; the format's own caps (references below 64, symbols of 1 to
63 bytes, arities below 64) are outcomes. The assertions of `item_byte` are taken as in a debug build:
where they fail, the operation has a failing outcome.

What the proofs bring to light about the code:

- `AUSink` panics when it is finalised after exactly one expression: the length is still `usize::MAX`
  (`Sinks.AUSink.Finalize`).
- Whether a query into `AUSink` panics can depend on the order of its expressions (`SinkOrders.OrderMatters`);
  at most 64 leaves in every expression rules it out (`SinkOrders.SmallAllOrders`).
- `RelExprEnv::eq` reads on after its first mismatch and can meet a byte that is no tag
  (`RelEnvs.EqStrays` says exactly when); otherwise its answer is right. Under a hash collision this makes
  `anti_unify` panic (`Folds.AntiUnifyStrays`, `Folds.AntiUnifyCanStray`).
- `get_bytes` turns down a third byte above 128 but not 128 itself, which indexes past the 128 maps
  (`InterningRuns.PanicIff`); no symbol that was ever handed out has that byte
  (`InterningRuns.AnsweredNeverPanics`).
- A thread that drops its last write permit keeps its slot in mind and takes it again unchecked, so two threads
  can come to hold one slot (`Permits.SharedAfterReturn`).
- A list of the S-expression parser cannot end after a comment (`Sexprs.CommentInList`).
- `compute_length` and `parse` can disagree on an arity without its bracket (`TextForm.MissingBracket`).
- The JSON parser takes vertical tab and form feed for white space, which section 2 of RFC 8259 does not
  (`JsonGrammar.ParseText`), and a fraction behind the exponent of a large number (`JsonGrammar.BigNumberLax`).
- The least i16 exponent printed as JSON reads back one larger (`JsonPrinting.NumberRead`).
- A JSON number too large for a u64 is not always cut off: a small digit can be kept after a larger one was
  dropped (`JsonMeanings.AbsorbTruncates`, `JsonPrinting.LateDigit`).
- The comment on `ThinBytes` speaks of a u32 length; the code reads eight bytes
  (`interning/src/symbol_backing.rs:83-104`), and so does the model.

`dafny verify dfyconfig.toml` checks the whole project.

## Model

| member | source | states |
|---|---|---|
| `Items.ItemByteRoundTrip` | expr/src/lib.rs:117-141 | Encoding and decoding a tag byte are inverse, and exactly the bytes 0x40 to 0x7F are reserved |
| `Items.ItemMasks` | expr/src/lib.rs:127-141 | Which masks of a byte decode to which tag: the two top bits tell the kind, the six others are the payload, and 0xC0 alone introduces a variable |
| `Encoding.PrefixFree` | expr/src/lib.rs:89-141 | Byte format: no list of encodings is a prefix of another list of the same length; the bytes fix the expressions and where they end |
| `Encoding.AtUnique` | expr/src/lib.rs:298-308 | At most one expression stands at any offset of any byte string |
| `Encoding.EncStep` | expr/src/lib.rs:89-141 | Reading one item leaves the encoding of its arguments followed by the rest |
| `Traversals.Execute` | expr/src/lib.rs:939-958 | The recursive fold over raw bytes computes the reference fold and returns the length of the expression |
| `Traversals.ExecuteLoop` | expr/src/lib.rs:960-1014 | The explicit-stack fold, for every traversal, makes the reference fold's callbacks in its order; the end index is start plus length |
| `Traversals.LoopRefinesRecursion` | expr/src/lib.rs:939-1014 | The two folds agree for every traversal whose `add` ignores its offset, the only thing in which they differ |
| `Zippers.ExprZipper.constructor` | expr/src/lib.rs:1229-1243 | A new zipper stands at the first item, its breadcrumb announcing the arguments |
| `Zippers.ExprZipper.Item` | expr/src/lib.rs:1245-1250 | The item under the cursor |
| `Zippers.ExprZipper.Next` | expr/src/lib.rs:1321-1352 | Moves to the next item in reading order; false exactly at the last one, and then the cursor stays |
| `Zippers.ExprZipper.FinishSpan` | expr/src/lib.rs:1486-1495 | At the last item, the end of the whole expression |
| `Zippers.Span` | expr/src/lib.rs:298-308 | Walking an expression to its end finds exactly its encoding |
| `Trees.HolesSound` | expr/src/lib.rs:1019-1065 | `match2` on an assignment of possibly infinite trees: agreeing on all the pairs it reports implies that the two terms agree |
| `Trees.HolesComplete` | expr/src/lib.rs:1019-1065 | Conversely, agreeing terms agree on all the reported pairs, at any depth; a clash has no solution |
| `Trees.WalkEnds` | expr/src/lib.rs:1988-2004 | Dereferencing chains of variables ends in an unbound variable or a non-variable |
| `Trees.BindAcyclic` | expr/src/lib.rs:2096-2105 | Binding an unbound variable to a dereferenced term keeps the variable-to-variable chains acyclic |
| `Solutions.SameStep` | expr/src/lib.rs:2096-2105 | Dropping an equation between one variable and itself keeps the solution set of stack and bindings |
| `Solutions.BindStep` | expr/src/lib.rs:2096-2105 | Binding a variable keeps the solution set |
| `Solutions.DecomposeStep` | expr/src/lib.rs:2022-2079 | Decomposing two compounds keeps the solution set, including the pairs that `encountered` drops, also when the bindings are cyclic |
| `Solutions.ClashStep` | expr/src/lib.rs:2073-2079 | After a functor clash no assignment, finite or infinite, solves the input |
| `Solutions.EmptyStep` | expr/src/lib.rs:2109-2113 | With the stack empty the bindings have exactly the solutions of the input |
| `Solutions.OccursStep` | expr/src/lib.rs:2096-2105 | After the shallow occurs check fires no finite substitution solves the input |
| `Envs.VarOptIsVar` | expr/src/lib.rs:1786-1795 | The variable of a subexpression, as space and level, exactly when its term is a variable |
| `Envs.CountCounts` | expr/src/lib.rs:1745-1753 | `TraverseSide` advances by the number of variables introduced |
| `Envs.OccursOccurs` | expr/src/lib.rs:1977-1987 | The fold of the shallow occurs check decides whether the variable occurs in the term |
| `Unification.Unifier.DerefBound` | expr/src/lib.rs:1988-2004 | Terminates, at the end of the chain of bindings |
| `Unification.Unifier.IsUnbound` | expr/src/lib.rs:2005-2021 | Terminates, and tells whether the chain ends in an unbound variable |
| `Unification.Unifier.Push` | expr/src/lib.rs:2022-2036 | Pushes a pair, or drops it only when it was encountered before |
| `Unification.Unifier.OccursCheck` | expr/src/lib.rs:1977-1987 | True exactly when the variable is in the same space and occurs in the unresolved term |
| `Unification.Unifier.Match2` | expr/src/lib.rs:1019-1065 | Walking two encodings in step pushes exactly the pairs where one side is a variable, in order, or reports a clash exactly when there is one |
| `Unification.Unifier.Decompose` | expr/src/lib.rs:2069-2079 | One step on two non-variables keeps the run's invariant and does what the step on equations does: exactly the gaps between the two, pushed in order |
| `Unification.Unifier.BindVariable` | expr/src/lib.rs:2096-2105 | One step that binds keeps the run's invariant and does what the step on equations does |
| `Unification.Unifier.Solve` | expr/src/lib.rs:2065-2106 | Every step keeps both directions of the solution set, and is one step on equations: same, bind or decompose |
| `Unification.Unifier.Run` | expr/src/lib.rs:1971-2114 | Terminates without the iteration cap; `Ok` has exactly the input's solutions over possibly infinite trees, `Difference` means none at all, `Occurs` none that is finite; under a cap the answer is `MaxIter` exactly when more steps on the equations are needed than the cap allows, and the uncapped answer otherwise |
| `UnificationSteps.GapsDenote` | expr/src/lib.rs:1019-1065 | The pairs a step pushes are the disagreement pairs of the two terms, in order, and there are none exactly when two functors clash |
| `UnificationSteps.EndsOnce` | expr/src/lib.rs:2043-2113 | The answer is determined by the equations and the cap: no equations both end within the cap and need more steps, or end in two ways |
| `Matching.MatchingSteps` | expr/src/lib.rs:2056-2059 | When one of the two expressions has no variables, no more steps are ever needed than the other has variable items, and one |
| `Matching.MatchingUncapped` | expr/src/lib.rs:1855-1862 | Matching against an expression without variables meets neither cap, for an iteration cap no smaller than the number of variable items and any depth cap above 0 |
| `Depths.DeeperIsChain` | expr/src/lib.rs:1860-1862 | The stack of `apply` can be led beyond a depth exactly when a chain of more different bound variables, each occurring in what the one before is bound to, starts in the expression |
| `Depths.ChainBound` | expr/src/lib.rs:1860-1862 | Such a chain takes more bindings than the depth |
| `Resolution.MguSolves` | expr/src/lib.rs:1860-1967 | Resolved bindings solve themselves |
| `Resolution.ResolveKeeps` | expr/src/lib.rs:1860-1967 | No finite solution of the bindings sees a difference between a term and its resolution |
| `Resolution.UnresolvedIffCyclic` | expr/src/lib.rs:1860-1967 | Resolution fails exactly when a chain of bindings that repeats a variable can be reached |
| `Resolution.SolvableResolves` | expr/src/lib.rs:744-766 | Bindings with a finite solution have no reachable cycle |
| `MostGeneral.LeftDecides` | expr/src/lib.rs:752-762 | Looking for cycles from the left expression alone amounts to a full occurs check of both sides |
| `MostGeneral.MguTheorem` | expr/src/lib.rs:744-766 | The bindings resolve exactly when a finite unifier exists, and then to a most general one |
| `Numbering.NumberDenotes` | expr/src/lib.rs:1872-1879 | Numbering variables by first occurrence writes a closed expression that denotes the term with its variables renamed to levels |
| `Numbering.NumberCanonical` | expr/src/lib.rs:89-141 | A closed expression is the numbering of what it denotes: encodings up to renaming are unique |
| `Numbering.NumberRenamed` | expr/src/lib.rs:1872-1879 | An injective renaming does not change the bytes |
| `Application.Applier.Apply` | expr/src/lib.rs:1860-1967 | Terminates for every finite map of bindings, cyclic or not; `cycled` stays empty exactly when no cycle is reachable, and then what is written is the fully resolved term, numbered by first occurrence; `TooDeep` only when a chain of more bound variables than the cap starts in the expression, and always then unless a cycle or a failure of the format comes first; with cycles the bytes are those of the reference walk |
| `Application.Applier.Item` | expr/src/lib.rs:1866-1965 | One item of the walk leaves the final output what it was going to be |
| `Application.Applier.Variable` | expr/src/lib.rs:1868-1945 | One occurrence: unbound, already assigned, already cycled, on the stack, or resolved recursively |
| `ExprUnification.UnifyInto` | expr/src/lib.rs:744-766 | `Ok` writes the most general common instance of both inputs; every failure short of the caps means that no finite unifier exists or that the instance does not fit the format; the iteration cap is reported exactly when `unify` needs more steps, the depth cap only when what it binds has a chain of more variables, which takes more variables in the two inputs than the depth |
| `ExprUnification.MguUnique` | expr/src/lib.rs:744-766 | All most general unifiers give the same bytes |
| `Variants.VariantsNumber` | expr/src/lib.rs:744-766 | Terms that are instances of each other are written as the same bytes |
| `Generalisation.GenRestores` | expr/src/lib.rs:2228-2314 | The left and right subterms behind its variables instantiate a generalisation back to each input |
| `Generalisation.GenUniversal` | expr/src/lib.rs:2228-2314 | Every common generalisation has the generalisation as an instance |
| `Generalisation.WrittenIsLgg` | expr/src/lib.rs:2228-2314 | What is written, with variables reused for equal disagreements, is a least general generalisation |
| `Generalisation.LggUnique` | expr/src/lib.rs:2228-2314 | All least general generalisations are written as the same bytes |
| `Generalisation.GenBytes` | expr/src/lib.rs:2228-2314 | A generalisation is never longer than either input |
| `RelEnvs.RelEq` | expr/src/lib.rs:2138-2177 | Panics exactly when the comparison strays; otherwise true exactly when the two subexpressions denote the same absolute term, wherever they stand |
| `RelEnvs.EqStrays` | expr/src/lib.rs:2138-2177 | The comparison, which goes on after a mismatch, meets a byte that is no tag exactly when some variable or symbol of the left side faces, at its offset, a byte of the right buffer that is no tag or lies past its end |
| `RelEnvs.EqualNeverStrays` | expr/src/lib.rs:2138-2177 | Comparing equal terms never strays |
| `RelEnvs.EqCanStray` | expr/src/lib.rs:2138-2177 | `(x $)` compared with `(ab ...)` strays |
| `RelEnvs.HashOf` | expr/src/lib.rs:2181-2192 | What is hashed is a function of the absolute term, so equal keys have equal hashes |
| `RelEnvs.HashInjective` | expr/src/lib.rs:2181-2192 | What is hashed determines the terms and where they end, so unequal keys collide only in the hasher |
| `RelEnvs.SpaceIrrelevant` | expr/src/lib.rs:2138-2177 | Equality of absolute terms does not depend on the variable space |
| `AntiUnification.Args` | expr/src/lib.rs:1817-1845 | The arguments of a compound, each with the variables to its left counted |
| `Memos.KeyHashDecides` | expr/src/lib.rs:2181-2201 | Two keys write the same to the hasher exactly when both sides are equal |
| `Memos.Lookup` | expr/src/lib.rs:2284-2286 | For any hash table that compares at least the entries of equal hash, in any order: the pair is found exactly when an equal one was met before, unless a comparison strays first |
| `Memos.SettleIs` | expr/src/lib.rs:2281-2310 | After any list of keys the memo holds each different key once; it fails on a 65th, or when a key strays off an entry it is compared with |
| `Memos.StrayPossible` | expr/src/lib.rs:2281-2310 | Some hash table makes a comparison stray exactly when some key strays off one remembered before it |
| `Memos.CollisionFreeNeverStrays` | expr/src/lib.rs:2281-2310 | A table that compares only keys of equal hash never strays |
| `AntiUnification.DecomposableHere` | expr/src/lib.rs:2209-2225 | True exactly for equal symbols and compounds of equal arity |
| `AntiUnification.AntiUnifier.Disagree` | expr/src/lib.rs:2281-2310 | A disagreement reuses its variable or introduces the next; fails exactly on a 65th, or when looking it up or inserting it strays |
| `AntiUnification.AntiUnifier.Agree` | expr/src/lib.rs:2246-2280 | Two decomposable terms are taken apart without changing what will be written |
| `AntiUnification.AntiUnifier.Run` | expr/src/lib.rs:2228-2314 | The work list writes the numbered generalisation of the two inputs and records both subterms of every variable; it fails exactly as looking up all the disagreements in order does, or when it grows beyond its limit |
| `Folds.AntiUnify` | expr/src/lib.rs:669-680 | `anti_unify` returns a least general generalisation no longer than either input, with recorded subterms that restore both; short of the depth limit it fails exactly when a comparison of the memo strays or more than 64 variables are needed, whichever comes first |
| `Folds.AntiUnifyStrays` | expr/src/lib.rs:2228-2314 | Which of the two inputs' disagreements can make the memo stray, under some hash table: exactly when one strays off an earlier one |
| `Folds.AntiUnifyCanStray` | expr/src/lib.rs:2228-2314 | `((ab c) (x $))` against `(s t)` can |
| `Folds.LggStep` | kernel/src/sinks.rs:284-290 | Generalising a generalisation with one more expression generalises all of them |
| `Folds.FitsStep` | kernel/src/sinks.rs:284-290 | That step stays within 64 variables exactly when the generalisation of all of them does |
| `Folds.MgciStep` | kernel/src/sinks.rs:218-231 | Unifying a common instance with one more expression gives the common instance of all of them |
| `Folds.MgciNone` | kernel/src/sinks.rs:226-227 | When that unification fails there is no common instance at all |
| `Sinks.AUSink.constructor` | kernel/src/sinks.rs:267-269 | An empty sink |
| `Sinks.AUSink.Sink` | kernel/src/sinks.rs:275-294 | The two buffers of the first path's length always suffice, are swapped, and hold the least general generalisation of everything sunk; each way in which the `unwrap` panics is characterised: more than 64 variables needed by everything sunk, a straying memo, or too deep a work list |
| `Sinks.AUSink.Finalize` | kernel/src/sinks.rs:295-310 | The bytes of the least general generalisation; panics after exactly one expression, where the length was never set |
| `Sinks.AuQuery` | kernel/src/sinks.rs:265-310 | A whole query; without the depth limit and without collisions it completes exactly when no prefix of two or more expressions needs more than 64 variables |
| `Sinks.AuOrder` | kernel/src/sinks.rs:265-310 | Two orders that both complete give the same bytes |
| `SinkOrders.AllOrders` | kernel/src/sinks.rs:265-310 | All orders complete exactly when every sub-multiset of two or more expressions stays within 64 variables |
| `SinkOrders.SmallCompletes` | kernel/src/sinks.rs:265-310 | One of the first two expressions having at most 64 leaves is enough for an order to complete |
| `SinkOrders.SmallAllOrders` | kernel/src/sinks.rs:265-310 | All expressions having at most 64 leaves is enough for every order |
| `SinkOrders.OrderMatters` | kernel/src/sinks.rs:284-290 | Two wide expressions and `$`: in one order the query panics, in another it yields the byte 0xC0 |
| `Sinks.USink.constructor` | kernel/src/sinks.rs:191-203 | An empty sink |
| `UnificationReuse.UnifiesReuseState` | expr/src/lib_nightly.rs:278-294 | Unification through `apply_e`: writes the most general common instance of both inputs, or fails because no finite unifier exists, the instance does not fit the format, or a cap was hit, under the same exact conditions as `_unify` |
| `Sinks.USink.Sink` | kernel/src/sinks.rs:209-242 | Holds the most general common instance of everything sunk, or a conflict when there is none; a cap is hit only when the next expression takes more steps, or a longer chain of bindings, against what those before it have in common |
| `Sinks.USink.Finalize` | kernel/src/sinks.rs:243-262 | Its bytes, or none exactly when nothing was sunk or no common instance exists |
| `Sinks.UQuery` | kernel/src/sinks.rs:180-262 | A whole query; expressions that have a common instance are unified to the end exactly when the instance of no prefix leaves the format, unless some expression runs out of steps or of depth against what those before it have in common |
| `Sinks.UOrder` | kernel/src/sinks.rs:180-262 | Two orders that both finish, neither of them at a cap, give the same bytes, or both none |
| `SinkOrders.UAllOrders` | kernel/src/sinks.rs:180-262 | No order has a prefix that leaves the format exactly when no sub-multiset does |
| `HeadTail.HeadTailSink.Sink` | kernel/src/sinks.rs:388-418 | Holds the first `max` paths seen, least for head and greatest for tail, with the extremum the one to displace next |
| `HeadTail.HeadTailSink.FindExtremum` | kernel/src/sinks.rs:400-404 | The path furthest from being preferred |
| `HeadTail.KeptUnique` | kernel/src/sinks.rs:388-418 | What is kept depends only on which paths were seen, not on their order |
| `HeadTail.KeptByRank` | kernel/src/sinks.rs:388-418 | A head sink keeps a path exactly when fewer than `max` of the paths seen are lexicographically below it, a tail sink when fewer than `max` are above it |
| `HeadTail.LessIs` | kernel/src/sinks.rs:393-410 | Paths are compared lexicographically: a proper prefix comes first, otherwise the first byte that differs decides |
| `Substituting.Substituter.Shift` | expr/src/lib.rs:620-642 | Writes a substitute at the first occurrence of its variable and returns the number of variables introduced |
| `Substituting.Substituter.Bind` | expr/src/lib.rs:598-618 | Writes it at a later occurrence, referring to those variables |
| `Substituting.Substituter.SubstituteDeBruijn` | expr/src/lib.rs:571-595 | Succeeds exactly when there are enough substitutes and the result fits, and then writes the simultaneous substitution with every substitute's variables in a space of their own |
| `Substituting.PlacedFirst` | expr/src/lib.rs:620-642 | Shifting is the numbering of a closed substitute after foreign variables |
| `Substituting.PlacedLater` | expr/src/lib.rs:598-618 | Binding is its numbering once all its variables have been introduced |
| `Substituting.SubstituteMeans` | expr/src/lib.rs:571-595 | The result is closed, introduces as many variables as the substitutes together, and denotes capture-free simultaneous substitution |
| `Substituting.SubstituteIdentity` | expr/src/lib.rs:539-545 | Substituting `$` everywhere changes nothing |
| `Substituting.SubstituteAssociative` | expr/src/lib.rs:571-595 | Substituting twice is substituting once, with every substitute's share of the second round substituted into it first |
| `Coroutines.ItemSource.Resume` | expr/src/lib_nightly.rs:128-168 | Yields the items of the expression in reading order and completes after the last one, at its end |
| `Coroutines.ItemSink.Resume` | expr/src/lib_nightly.rs:70-126 | Writes each item and completes exactly when no expression is left open |
| `Coroutines.Copy` | expr/src/lib_nightly.rs:70-168 | Feeding the source into the sink reproduces the bytes, and the sink completes on exactly the last item |
| `StreamApplication.StreamApplier.ApplyE` | expr/src/lib_nightly.rs:172-266 | The same bytes, cycles, assignments and failures as `apply`, `TooDeep` included (a chain of more bound variables than the cap), for cyclic bindings too; exactly one expression goes into the sink, which is never resumed once complete |
| `Slabs.BeRoundTrip` | interning/src/symbol_backing.rs:75-76 | Big-endian lengths read back |
| `Slabs.ReadBack` | interning/src/symbol_backing.rs:92-108 | `as_raw_slice` returns exactly the bytes registered, on both sides of the length switch |
| `Slabs.PutKeeps` | interning/src/symbol_backing.rs:46-85 | Writing at the write position leaves every record before it readable |
| `Slabs.Slab.Allocate` | interning/src/symbol_backing.rs:13-28 | A zeroed slab with room for the request |
| `Slabs.Slab.RegisterBytes` | interning/src/symbol_backing.rs:46-85 | The record is written at the old write position, or at the start of a new slab linked behind exactly when there is no room: the very write that the interning protocol makes |
| `InterningSafety.InvMoves` | interning/src/handle.rs:25-115 | Every atomic step keeps the invariant of memory, symbols and locks, takes nothing back, and brings its own call nearer to its end |
| `InterningSafety.InvNext` | interning/src/handle.rs:25-115 | So does every interleaving of steps and new calls |
| `InterningSafety.InvInit` | interning/src/lib.rs:95-113 | The invariant holds initially, for any number of threads of which some own a permit slot; slot 0 starts at symbol 1 |
| `InterningSafety.MemFinish` | interning/src/handle.rs:107-111 | The rollback of a wasted eager write restores the header and discards an unpublished record only |
| `InterningSafety.MemInsertBytes` | interning/src/handle.rs:88-95 | Publishing a record keeps all published regions disjoint |
| `InterningRuns.OneSymbolEach` | interning/src/handle.rs:25-115 | In no run is a string given two symbols, not even by racing threads |
| `InterningRuns.VisibleResolves` | interning/src/handle.rs:88-98 | A symbol visible in `to_symbol` resolves in `to_bytes` to its string, at once and in every later state, and `get_bytes` does not turn it down |
| `InterningRuns.NeverOverwritten` | interning/src/symbol_backing.rs:46-85 | The bytes behind a published symbol stay in place, inside the slab, before the write position, and apart from every other published region |
| `InterningRuns.RunGrows` | interning/src/handle.rs:25-115 | Both maps and the answers only grow |
| `InterningRuns.AnswersAgree` | interning/src/lib.rs:115-144 | Over a whole run, answers have equal symbols exactly for equal strings, and `get_bytes` agrees with them |
| `InterningRuns.NeverForgotten` | interning/src/lib.rs:115-144 | Once a symbol was handed out, no later answer says that its string or its symbol is unknown |
| `InterningRuns.PanicIff` | interning/src/lib.rs:115-124 | In every run a thread has panicked exactly when it called `get_bytes` on a symbol whose third byte is 128 and has gone on since |
| `InterningRuns.AnsweredNeverPanics` | interning/src/lib.rs:115-124 | No symbol that was ever handed out makes a thread panic |
| `InterningRuns.PanicReachable` | interning/src/lib.rs:115-124 | The panic can be reached |
| `InterningRuns.Progress` | interning/src/handle.rs:62-101 | Unless all threads are at rest some thread can step: the bucket-then-bytes lock order never deadlocks |
| `Permits.ExclusiveWhileNoneReturns` | interning/src/handle.rs:6-15 | While no thread takes its slot again after dropping its last permit, every slot is held by one thread at most |
| `Permits.SharedAfterReturn` | interning/src/handle.rs:136-152 | Once a thread does, the slot is shared at once or can come to be shared through newcomers alone |
| `InterningRuns.DrainingEnds` | interning/src/handle.rs:25-115 | However they are scheduled, the calls in progress end after a bounded number of steps |
| `InterningAnswers.CallAnswered` | interning/src/handle.rs:25-115 | In every run, a call that returns has answered what it was asked: `get_sym_or_insert` with the symbol its string has from then on, never with none; `get_sym` with the symbol of a string that had one when it was called; `get_bytes` with the string of such a symbol |
| `InterningAnswers.CallsEnd` | interning/src/handle.rs:25-115 | When no new call is made and no step is left to take, every call has returned with its answer, however the threads were scheduled: every inserting call ends with its symbol |
| `InterningAnswers.ZeroNeverHandedOut` | interning/src/lib.rs:181-186 | No run hands out symbol 0 or stores a string under it |
| `Sexprs.Context.GetOrPut` | frontend/src/bytestring_parser.rs:60-75 | The level of a known name, a new level, or failure at the 65th |
| `Sexprs.Sexpr` | frontend/src/bytestring_parser.rs:81-159 | Succeeds exactly when the reader of names finds an expression that fits the format; then consumes input and appends its encoding with names as levels, the arity byte patched in place |
| `Sexprs.List` | frontend/src/bytestring_parser.rs:103-123 | The element loop: the arity byte counts the elements already written |
| `Sexprs.ParsedMeans` | frontend/src/bytestring_parser.rs:81-159 | What is appended is one closed expression; two occurrences share a level exactly when they share a name, and every `$` is a new entry of `variables` |
| `Sexprs.ReadSkips` | frontend/src/bytestring_parser.rs:81-90 | Comments and white space before an expression do not matter; `SexprGrammar` says what they are |
| `Sexprs.CommentInList` | frontend/src/bytestring_parser.rs:84-125 | In a list a comment may be left out exactly when another element follows it; before the bracket or the end of the input it is an error |
| `SexprGrammar.CommentSkipped` | frontend/src/bytestring_parser.rs:85 | For every comment text without a line feed, reading `;`, the text and a line feed and then the rest gives what reading the rest gives, with the end moved by the comment's length |
| `SexprGrammar.ReadMoved` | frontend/src/bytestring_parser.rs:81-159 | What is read depends only on what follows |
| `SexprGrammar.DocRead` | frontend/src/bytestring_parser.rs:81-159 | An expression written with any spaces, tabs, line feeds and comments before its elements is read as that expression |
| `SexprGrammar.ReadSpelled` | frontend/src/bytestring_parser.rs:81-159 | Whatever is read is such a text: tokens, brackets, white space and comments that end at a line feed, and nothing else |
| `SexprGrammar.ParseText` | frontend/src/bytestring_parser.rs:81-159 | However an expression that fits is spaced and commented, parsing appends the same bytes; and only such texts are parsed |
| `Printing.Serialize2` | expr/src/lib.rs:897-903 | Prints the text of the expression with its variables named |
| `Printing.VarNamesAre` | expr/src/lib.rs:897 | The variables are named `$a` to `$j` and then `$x10` to `$x63` |
| `Printing.PrintsText` | expr/src/lib.rs:1148-1157 | The traversal's state after any list of expressions: text, separator flag and variable count |
| `Printing.ReadUndoesPrint` | expr/src/lib.rs:897-903 | What is printed is read as the expression it came from, for plain tokens and well-formed quoted strings |
| `Printing.PrintAndParse` | frontend/src/bytestring_parser.rs:81-159 | Printing and parsing rebuild the same bytes |
| `SexprGrammar.ParseSpaced` | frontend/src/bytestring_parser.rs:81-159 | The same with comments and line breaks: any text with the printed expression's tokens is parsed to its bytes |
| `TextForm.Parse` | expr/src/lib.rs:1565-1639 | Writes exactly the bytes the text denotes, the rest of the array staying zero; fails when they do not fit |
| `TextGrammar.ParsedMeans` | expr/src/lib.rs:1565-1639 | Token by token: spaces are skipped, `$`, `_` and `[ ]` with their decimal number and words become their items, and the first number above 255 or payload that does not fit is the failure |
| `TextGrammar.ParseMeans` | expr/src/lib.rs:1565-1639 | Every text whose arities have their brackets is such a list of tokens |
| `TextForm.ComputeLength` | expr/src/lib.rs:1516-1563 | Counts the bytes of the tokens |
| `TextForm.LengthIsParsedLength` | expr/src/lib.rs:1516-1639 | The count is the number of bytes `parse` writes, when every arity has its bracket |
| `TextForm.MissingBracket` | expr/src/lib.rs:1516-1639 | Without the bracket the two can disagree |
| `TextForm.AccidentalAgreement` | expr/src/lib.rs:1516-1639 | and can agree by accident |
| `TextForm.Serialize` | expr/src/lib.rs:1642-1709 | The text of any bytes, well-formed or not |
| `TextForm.HexReads` | expr/src/lib.rs:1642-1709 | The two hexadecimal digits of a byte, high digit first, denote it |
| `TextForm.ParseUndoesSerialize` | expr/src/lib.rs:1516-1709 | Parsing what `serialize` prints gives the bytes back, and `compute_length` their number |
| `JsonLexers.Lexer.ExpectItem` | frontend/src/json_parser.rs:213-236 | The next byte that is not white space; which bytes that skips is `JsonGrammar.ItemGap` |
| `JsonGrammar.ItemGap` | frontend/src/json_parser.rs:213-236 | Before the next item stand bytes 9 to 13 and 32 and nothing else, and it is none of them |
| `JsonLexers.Lexer.ExpectString` | frontend/src/json_parser.rs:312-340 | A string is read exactly when it is made of plain bytes, short escapes and escaped code points up to its quote, and as the bytes these stand for |
| `JsonLexers.Lexer.ReadComplexString` | frontend/src/json_parser.rs:577-639 | The same from the first escape on: plain bytes stay, short escapes and code points are replaced by what they stand for |
| `JsonStrings.StringMeans` | frontend/src/json_parser.rs:312-340 | The recursive reader of strings, with or without escapes, in both directions |
| `JsonStrings.CodepointIs` | frontend/src/json_parser.rs:545-568 | A code point is read exactly where the UTF-16 of a scalar value stands in hexadecimal: surrogates only in pairs, every scalar value as itself |
| `JsonStrings.Utf8PrefixFree` | frontend/src/json_parser.rs:565 | The UTF-8 written for scalar values determines them and where they end |
| `JsonLexers.Lexer.ReadNumber` | frontend/src/json_parser.rs:343-374 | Every number of RFC 8259 is read as its value, or fails with its error |
| `JsonMeanings.NumberMeans` | frontend/src/json_parser.rs:343-719 | The same of the recursive reader: digits of the whole part that are dropped raise the exponent by their number, digits of the fraction that are kept lower it by theirs, and the written exponent saturates |
| `JsonMeanings.FittingNumber` | frontend/src/json_parser.rs:343-457 | When all digits fit a u64 the value is exact, unless the fraction has more than 32768 digits |
| `JsonMeanings.AbsorbTruncates` | frontend/src/json_parser.rs:648-680 | The digits kept are the number cut off behind them exactly when no digit is kept after one was dropped; otherwise they are too small |
| `JsonLexers.Lexer.ReadBigNumber` | frontend/src/json_parser.rs:648-680 | Of the digits each is kept if it still fits a u64; the others raise the exponent by their number |
| `JsonPrinting.LateDigit` | frontend/src/json_parser.rs:648-680 | 184467440737095516165 is read as 18446744073709551615 with exponent 1 |
| `JsonLexers.Lexer.ExpectFraction` | frontend/src/json_parser.rs:398-457 | Of the digits each is kept if it still fits a u64, and those kept lower the exponent by their number; below the range of i16 it fails |
| `JsonLexers.Lexer.ExpectExponent` | frontend/src/json_parser.rs:684-719 | The number written, cut down to 32767, is added to or taken from the exponent, within the range of i16 |
| `JsonParsing.Parse` | frontend/src/json_parser.rs:722-872 | The stack machine succeeds exactly when the recursive reader does, with the same error otherwise, and then makes exactly the calls of the value it reads |
| `JsonGrammar.ParseText` | frontend/src/json_parser.rs:722-872 | Every text of RFC 8259 up to the depth limit, with any white space (bytes 9 to 13 and 32) before and after every token and any spelling of its strings and numbers, makes exactly the calls of its value; and only values with such white space between their tokens are accepted |
| `JsonGrammar.SpacedRead` | frontend/src/json_parser.rs:722-872 | The recursive reader on such a text gives its value |
| `JsonGrammar.AcceptedSpelling` | frontend/src/json_parser.rs:722-872 | Every accepted text is white space and the tokens of its value: a byte that is not white space is refused everywhere between them |
| `JsonParsing.AcceptedDepth` | frontend/src/json_parser.rs:733-758 | No value nested deeper than 512 levels is accepted |
| `JsonGrammar.BigNumberLax` | frontend/src/json_parser.rs:648-680 | A number too large for the first loop may go on with a fraction behind its exponent, which no number of RFC 8259 does |
| `JsonPrinting.EventsText` | frontend/src/json_parser.rs:124-144 | What `WriteTranscriber` writes for the calls of a value is the text of the value |
| `JsonPrinting.NumberRead` | frontend/src/json_parser.rs:344-719 | A u64 mantissa and an i16 exponent are read back unchanged exactly when the exponent is above the least; that one comes back one larger, for every mantissa |
| `JsonPrinting.ReadUndoesWrite` | frontend/src/json_parser.rs:124-144 | Reading what is written for a value gives the value, for escape-free strings and depth at most 512 |
| `JsonPrinting.WriteAndParse` | frontend/src/json_parser.rs:722-872 | Parsing what was written replays exactly the same calls |

## Left out

- Raw pointers, null expressions, alignment and the allocator: buffers are byte sequences with offsets, and an input buffer is identified by an address and its contents. Output buffers grow as needed, except the two fixed arrays of `AUSink` and the array of `parse`, whose capacity is proved to suffice or checked.
- Memory ordering: every lock operation and every access under a lock or to thread-owned data is one atomic step.
- Byte-wide counters: variable levels are counted up to 255, as a precondition on inputs; beyond that the byte counters of the source overflow.
- Application.Applier.Apply: in the cyclic case, where the source itself calls its numbering doubtful (`expr/src/lib.rs:1918`), the bytes are fixed by a reference walk and not by a meaning; the count of introduced variables is not bounded.
- RelEnvs.RelEq: an arity reads its facing byte without decoding it, so a read past the other buffer by an arity alone does not count as straying; it can only follow a mismatch.
- Memos.Lookup: the hash table is any function from hashes to the entries compared; the hasher and the layout of the table are not modelled.
- Unification.Unifier.Run: the `same_functor` variant that is commented out in the source, and debug printing.
- Sinks.USink.Sink: a run stopped by the iteration cap counts as a conflict in the source; when it is stopped is exact, its result is not promised to be right; common instances of more than 255 variables overflow the byte counters. When there is no common instance, `apply_e` may panic on a reference of 64 before it meets the cycle; exactly when is left open. The three vectors that the source reuses are cleared before use, so they are new here.
- Sinks.AUSink.Finalize: the root prefix of the write zipper and the move into the path map.
- HeadTail.HeadTailSink.Sink: the path map is a set of paths; paths are not empty, and a displacing path that is already kept is the assertion failure it is in the source.
- Substituting.Substituter.SubstituteDeBruijn: inputs are closed and the substitutes introduce at most 255 variables together. `substitute_de_bruijn_ivc` is the same loop with its counters passed in; `unbind` and the `equate` family have no clear specification.
- Interning: the bucket hash is any function of the bytes, so `bounded_pearson_hash` is not modelled; a permit slot belongs to one thread for the whole run, which `Permits` shows to hold as long as no thread returns, and there are fewer than 2^40 symbols in a slot. Dropping the store and `Slab::free` are not modelled.
- Permits: one store; the thread-local slot of the source is shared by all stores of the process.
- `SharedMapping::serialize` and `deserialize`: archive input and output.
- Sexprs.Sexpr: the tokenizer is any function from the text of a symbol to its bytes; its state is not modelled. The error for an arity byte that is no arity cannot occur. The branches for names and symbols are methods of their own, as is the element loop.
- TextForm.LengthIsParsedLength: one direction only. Without a bracket the two lengths usually differ but can agree by accident (`TextForm.AccidentalAgreement`).
- JsonLexers.Lexer: line and column of an error are not computed, only its index; `parse_stream` repeats `parse` as a coroutine. An exponent that falls below the range of i16 while reading a fraction is an error here, as in a debug build.
- JsonGrammar.AcceptedSpelling: of an accepted number only the first digit and the kind of its other bytes are described, because the parser takes more than the numbers of RFC 8259 (`JsonGrammar.BigNumberLax`); the strings and all other tokens are exact.
- TextGrammar.ParsedMeans: texts with an arity that lacks its bracket are covered by `TextForm.Parse` only.
- JsonPrinting.ReadUndoesWrite: strings with escapes are read by the model, but the printer does not escape, so they do not round-trip.
- Recursive methods of the source are split where one Dafny method would be too large: the heads, arguments and holes of `match2`, the two loops of `execute_loop`, and the loops of the JSON parser.
- `extract_data` and `transformData` (skipping a bound compound moves the cursor without its breadcrumb), `execute_loop_truncated`, `next_skip`, `next_descendant`, the highlighting printers, and the one-line counting folds of `Expr`: no clear specification, or only easy members.
- The other sinks and sources of the kernel, the space, the operators of `pure.rs`, the benchmarks, the command line and the linear algebra crate: they rest on path-map zippers or foreign code, or would only add easy members.
