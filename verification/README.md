# EloqKV in Dafny

EloqKV serves the Redis commands on top of a transactional store. This project models the parts of it that are
algorithms and state machines in their own right, and proves what they promise. To check it, use
`dafny verify dfyconfig.toml` with Dafny 4.11. Nothing here runs the server: the model is the program's logic restated
in Dafny, function by function, with its constants, branches and error cases.

| files | what they model |
|---|---|
| `GlobSyntax`, `GlobMatch` | the glob grammar, and the matcher with its failure pruning, against "some split of the string fits the tokens" |
| `Fp*` | Grisu2 double printing, from bits to text: 64-bit arithmetic, the table of powers, digit generation, the text, and reading it back |
| `ListSpec`, `ListObject`, `ListRuns`, `ListLaws` | the list object as a two-phase machine: execute foresees, commit changes, a replica only commits; and what each command does, by position |
| `RandMap`, `SetObject` | random sampling by cyclic probing, SPOP, SRANDMEMBER, SADD, SREM |
| `Decimal`, `HashObject` | strict integer parsing and HINCRBY |
| `ObjectCodec`, `StringObject`, `ZsetObject` and the codecs in the object files | the stored form of all five types, with and without expiry time |
| `Rdb`, `Lzf`, `Listpack`, `Ziplist`, `Intset`, `RdbDecode`, `RdbDump`, `RdbCompact`, `BlobGrammar`, `RdbRestore` | DUMP and RESTORE, end to end, and which blobs are accepted |
| `WireFormats` | the stored and dumped formats, byte by byte |
| `ScanCursor` | the reference-counted cache of the last hundred scan cursors |
| `PubSub` | the two-sided publish/subscribe index |
| `Base64Url`, `B255` | namespace tokens, ids and key prefixes |
| `Bytes`, `Objects`, `Arithmetic` | shared definitions |

Code that changes things step by step is modelled as methods and classes with the same loops, proved against
specification functions; the laws are lemmas about those functions. A byte string is `seq<byte>`, doubles are their
64-bit patterns, C++ `char` in patterns is signed, and integers are unbounded except where the source's width matters:
there the wrap or the truncation is written out. What the source leaves to chance or to a library is an input: the
random numbers, the iteration order of the hash containers (any enumeration), the FNV hash of a cursor, the byte that
lies behind a payload and the conversion of decimal text to a double.

Where the code falls short of what one would expect of it, the model follows the code, and the exact condition is
proved together with an input that shows the difference:

- The text of a double can be one character longer than the 24-byte buffer it is written to. `FpText.EmitDigits` has
  the exact condition on its arguments (negative, 17 digits, K = 7) and `FpText.FpconvDtoa` what it means for the
  double; `FpText.LongTextWitness` is -1.2345678901234567e23.
- LZF decompression does not look for the end of the stream before an offset byte, so a stream cut inside a long
  back-reference is completed by the byte that happens to lie behind it (`Lzf.OverreadsIff`, `Lzf.AcceptedIff`,
  `Lzf.OverreadWitness`).
- LREM's commit keeps its counter in 32 bits, so from |count| = 2^31 on it can disagree with execute
  (`ListSpec.LRemAgreesIff`, `ListRuns.VerdictIsTruthIff`, `ListSpec.LRemTruncationWitness`,
  `ListRuns.VerdictCanMislead`).
- The size test of the LMOVE push leaves out the element's 4-byte header, so a list can exceed the limit by up to four
  bytes, and not by more (`ListRuns.LMovePushWithinIff`, `ListRuns.RunIsBounded`, `ListRuns.BoundIsTight`). Its commit
  asserts the limit, so in a build with assertions such a push fails that assertion; no other accepted command fails its
  own
  (`ListRuns.AssertionsIff`, `ListRuns.AssertingReplicaIff`, `ListRuns.BoundIsTight`).
- A sorted set of several members with a NaN among the scores does not come back from its stored form
  (`ZsetObject.KeptIff`, `ZsetObject.NaNWitness`).
- HINCRBY refuses sums that reach LLONG_MIN or LLONG_MAX exactly (`HashObject.RangeRejectIff`,
  `HashObject.RangeRejectWitness`).
- SREM counts arguments rather than members, so its verdict can be wrong when arguments repeat
  (`SetObject.SRemVerdictIff`, `SetObject.SRemRepeatWitness`).
- RESTORE refuses collections of more than 2^20 entries, including those that DUMP wrote
  (`RdbDump.DecodeInvertsDump`, `RdbRestore.DumpThenRestore`, `RdbDump.CapWitness`).
- The listpack reader takes the length behind an element low bits first; Redis writes it high bits first, so a Redis
  listpack with an element of more than 127 bytes is refused (`Listpack.RedisListpackIff`,
  `RdbCompact.ElementsRestore`, `RdbCompact.ListpackPairsRestore`, `RdbCompact.PackNodesRestoreIff`,
  `Listpack.LongElementWitness`).
- `b255d` accepts leading zero digits, so it is not injective (`B255.DecodeThenEncode`, `B255.LeadingZeroWitness`).
- The empty glob pattern matches every string (`GlobMatch.StringMatchLen`).

## Model

| member | source | states |
|---|---|---|
| `GlobMatch.StringMatchLen` | src/redis_string_match.cpp:226-235 | for every pattern and string, the matcher says yes exactly when the pattern is empty or spells, by the grammar, tokens that fit the string (some split into pieces, one per token) |
| `GlobSyntax.SpellsIff` | src/redis_string_match.cpp:101-206 | the grammar and the reader agree: a pattern spells a token sequence if and only if reading it from left to right gives that sequence; every pattern spells exactly one |
| `GlobSyntax.RenderInverse` | src/redis_string_match.cpp:101-206 | tokens written out read back, plain and escaped characters, ranges in either order and negation included; and the token sequences that can be written at all are exactly the well-formed ones |
| `GlobMatch.MatchRendered` | src/redis_string_match.cpp:226-235 | on any tokens written out, the matcher answers whether the string fits those tokens |
| `GlobMatch.TokenMeaning` | src/redis_string_match.cpp:101-206 | a written token matches one character as users know it: `?` any, a literal itself, a class what is listed or lies between the ends of a range, a negated class the rest |
| `GlobMatch.StringMatchImpl` | src/redis_string_match.cpp:39-222 | the recursive matcher with its pruning flag decides the same relation on every suffix pair, terminates, and raises the flag only when no later start position can fit either |
| `GlobMatch.MatchStar` | src/redis_string_match.cpp:66-100 | giving up after a raised flag loses no match: the rest of the pattern is tried at every start that could still fit |
| `GlobMatch.FitsAtIffSplit` | src/redis_string_match.cpp:36-38 | the position-by-position relation the loop follows is the declarative one: a split exists if and only if the recursion succeeds |
| `GlobMatch.MatchOne` | src/redis_string_match.cpp:101-206 | one token other than a star accepts a character exactly as the token says, and the cursor moves past exactly that token |
| `GlobMatch.MatchClass` | src/redis_string_match.cpp:105-183 | the bracket loop accepts exactly the characters of the class, including negation, swapped ranges, escapes and a class that is never closed |
| `GlobMatch.OnlyStars` | src/redis_string_match.cpp:46-60 | the extra scan succeeds exactly on patterns of stars alone |
| `GlobMatch.SkipStars` | src/redis_string_match.cpp:209-217 | when the string has run out the pattern is used up exactly when only stars are left |
| `FpMultiply.Multiply` | fpconv/fpconv_dtoa.c:137-152 | the product of two 64-bit significands is exactly round-half-up(a*b / 2^64), with no intermediate overflow |
| `FpDigits.RoundDigit` | fpconv/fpconv_dtoa.c:154-165 | last-digit rounding steps down to the allowed value nearest to the true one, never below the lower bound and never out of '0'..'9' |
| `FpDigits.GenerateDigits` | fpconv/fpconv_dtoa.c:167-224 | for every 0 < lower <= w <= upper with lower < upper and exponent in [-60, -32], digit generation halts without 64-bit wraparound and yields a decimal in [lower, upper] that is nearest to w on its grid, while no grid ten times coarser has a point in the interval |
| `FpDigits.IntegralDigits` | fpconv/fpconv_dtoa.c:178-199 | the first loop either finishes with that contract or leaves the exact remainder; the tens index stays in range |
| `FpDigits.FractionDigits` | fpconv/fpconv_dtoa.c:201-223 | the second loop stops within 19 rounds, with every multiplication by ten inside 64 bits and the unit index in range |
| `FpDouble.BuildFpOnto` | fpconv/fpconv_dtoa.c:85-101 | every positive finite double is the image of exactly the bit pattern given, so nothing proved about BuildFp misses a double |
| `FpDouble.Normalize` | fpconv/fpconv_dtoa.c:103-112 | normalisation scales the significand to the top of 64 bits without changing the value |
| `FpDouble.Boundaries` | fpconv/fpconv_dtoa.c:114-135 | the two boundaries are the halfway points to the neighbouring doubles, on one exponent |
| `FpPowers.SearchFrom` | fpconv/fpconv_powers.h:109-133 | from any start index, for every exponent in [-1137, 960], the search halts at an entry that puts the product exponent into [-60, -32] |
| `FpPowers.FindCachedPow10` | fpconv/fpconv_powers.h:109-133 | the cached power returned does so, and k is its decimal exponent |
| `FpPowers.EveryRowGood` | fpconv/fpconv_powers.h:54-99 | every row of the table has a normalised significand and an exponent 26 or 27 above its predecessor's, so no step can jump the window |
| `FpReal.TableIsAccurate` | fpconv/fpconv_powers.h:54-99 | each of the 87 significands is within half a unit of the true power of ten |
| `FpGrisu.Grisu2` | fpconv/fpconv_dtoa.c:226-247 | for every finite double other than zero, 1 to 17 digits whose decimal lies strictly between the two halfway points, and no decimal with one digit less lies between them, except within 2^-60 of the value from one of them |
| `FpGrisu.NoneShorter` | fpconv/fpconv_dtoa.c:226-247 | the unit given up at each end and the rounding of the scaled bounds cost at most two units, so a shorter decimal further inside than that would have been found |
| `FpReadBack.ReadsBack` | fpconv/fpconv_dtoa.c:226-247 | any real strictly between the halfway points is closer to the double than to every other finite double of either sign |
| `FpText.EmitDigits` | fpconv/fpconv_dtoa.c:249-319 | the text spells a numeral equal to digits * 10^K, in the notation that K and the number of digits call for; with the sign counted it is longer than the 24-byte buffer if and only if the number is negative, has 17 digits and K = 7 |
| `FpText.EmitExponent` | fpconv/fpconv_dtoa.c:296-318 | one to three exponent digits are the decimal of the exponent without leading zeros |
| `FpText.FpconvDtoa` | fpconv/fpconv_dtoa.c:321-373 | the text starts with a minus sign if and only if the sign bit is set; for every finite double, the text read character by character gives a number to which no other finite double is as close; infinities and NaNs have their fixed texts. It fits 24 bytes whenever the double is not negative, or its upper halfway point is at most 10^23, or its lower one at least 10^24, or a multiple of 10^8 lies between them, more than 2^-60 of the value from either; it is 25 long whenever it is negative, none of the bounds holds and no multiple of 10^8 lies between them |
| `FpText.LongestText` | fpconv/fpconv_dtoa.c:249-258 | among the decimals between the halfway points, 17 digits with K = 7 occur only in the band from 10^23 to 10^24, and are the only choice there when no multiple of 10^8 lies between them |
| `FpText.LongTextWitness` | include/redis_string_num.h:253-258 | -1.2345678901234567e23 is such a double: its text takes 25 characters, the buffer has 24 |
| `FpText.TextReadsBack` | fpconv/fpconv_dtoa.c:349-373 | the whole text, sign included, reads as a number that is closer to the signed double than to any other finite double |
| `FpText.NumeralReads` | fpconv/fpconv_dtoa.c:249-319 | reading the characters of a numeral (digits, point, exponent with its sign) gives its number |
| `FpReader.DoubleIsBuilt` | fpconv/fpconv_dtoa.c:85-101 | sign, exponent and fraction fields taken apart stand for the number that IEEE 754 gives the bit pattern |
| `FpReader.SignedReadsBack` | fpconv/fpconv_dtoa.c:226-247 | a magnitude between the halfway points, with the sign of the double, is closer to it than to any other finite double |
| `ListObject.RedisListObject.ExecutePush` | src/redis_list_object.cpp:80-116 | RPUSH, LPUSH and the X forms are accepted exactly when the encoding afterwards stays within the limit; the reply is the new length |
| `ListObject.RedisListObject.CommitRPush` | src/redis_list_object.cpp:705-723 | appends the elements in order, keeps the cached length exact, and its size assertions hold exactly when the final list is within the limit |
| `ListObject.RedisListObject.CommitLPush` | src/redis_list_object.cpp:725-743 | pushes the elements one by one to the front (so they end up reversed), keeps the cached length exact, and its size assertions hold exactly when the final list is within the limit |
| `ListObject.RedisListObject.ExecuteLPop` | src/redis_list_object.cpp:153-181 | reports the elements that the commit will remove, in order, and the verdict that describes the change |
| `ListObject.RedisListObject.ExecuteRPop` | src/redis_list_object.cpp:183-210 | the same from the right, last element first |
| `ListObject.RedisListObject.CommitLPop` | src/redis_list_object.cpp:745-758 | removes min(count, size) elements from the left, keeps the cached length exact and tells whether the list is empty |
| `ListObject.RedisListObject.CommitRPop` | src/redis_list_object.cpp:760-774 | the same from the right |
| `ListObject.RedisListObject.ExecuteLMovePop` | src/redis_list_object.cpp:212-237 | the element reported is the one the commit removes, and the verdict describes the change |
| `ListObject.RedisListObject.CommitLMovePop` | src/redis_list_object.cpp:776-797 | removes one element from the given end, cached length exact |
| `ListObject.RedisListObject.ExecuteLMovePush` | src/redis_list_object.cpp:239-253 | accepted exactly when the cached length plus the element, without its 4-byte header, is within the limit |
| `ListObject.RedisListObject.CommitLMovePush` | src/redis_list_object.cpp:799-833 | pushes the element at the given end, cached length exact; its size assertion holds exactly when the list is then within the limit, header counted |
| `ListObject.RedisListObject.ExecuteBlockPop` | src/redis_list_object.cpp:605-646 | reports the elements the blocking pop removes, in order, with the matching verdict |
| `ListObject.RedisListObject.CommitBlockPop` | src/redis_list_object.cpp:933-967 | removes them and returns whether the list is NOT empty |
| `ListObject.RedisListObject.ExecuteLTrim` | src/redis_list_object.cpp:306-333 | verdict and count describe the trimmed list, and the command's range is rewritten to the normalised one |
| `ListObject.RedisListObject.CommitLTrim` | src/redis_list_object.cpp:835-877 | keeps exactly the window, cached length exact |
| `ListObject.RedisListObject.ExecuteLInsert` | src/redis_list_object.cpp:360-386 | accepted exactly when the pivot is present and the new element fits within the limit |
| `ListObject.RedisListObject.CommitLInsert` | src/redis_list_object.cpp:648-678 | inserts before or after the first occurrence of the pivot, cached length exact |
| `ListObject.RedisListObject.ExecuteLSet` | src/redis_list_object.cpp:463-494 | accepted exactly when the index is in range and the new element fits; the index is rewritten to a non-negative one |
| `ListObject.RedisListObject.CommitLSet` | src/redis_list_object.cpp:680-703 | replaces the element at the converted index, cached length exact |
| `ListObject.RedisListObject.ExecuteLRem` | src/redis_list_object.cpp:496-553 | counts the occurrences that LREM removes and gives the verdict for the list without them |
| `ListObject.RedisListObject.CommitLRem` | src/redis_list_object.cpp:879-931 | removes the first (or last) occurrences up to its 32-bit limit, cached length exact |
| `ListSpec.TrimKeepsWindow` | src/redis_list_object.cpp:261-304 | normalised bounds keep exactly the positions that the command reference describes, empty windows included |
| `ListSpec.TrimIdempotent` | src/redis_list_object.cpp:835-844 | normalising a normalised range changes nothing, for every non-empty list |
| `ListSpec.LRemMirror` | src/redis_list_object.cpp:496-553 | LREM with -k is LREM with k on the reversed list, reversed back |
| `ListLaws.LRemByCut` | src/redis_list_object.cpp:496-553 | LREM k > 0 removes the first k occurrences (everything up to a cut loses the element, everything behind it stays), k < 0 the last -k, and 0 all of them |
| `ListLaws.CommitLRemByCut` | src/redis_list_object.cpp:879-931 | the commit does the same with the low 32 bits of the count, read as a signed number |
| `ListLaws.LRemEnds` | src/redis_list_object.cpp:496-553 | on a list that holds the element twice, LREM 1 takes the first and LREM -1 the last |
| `ListLaws.PushByIndex` | src/redis_list_object.cpp:705-743 | position by position: RPUSH appends in order, LPUSH puts its last argument first, and the old elements keep their order |
| `ListLaws.MovePushByIndex` | src/redis_list_object.cpp:799-833 | LMOVE's push puts the element at the end it names |
| `ListLaws.PopByIndex` | src/redis_list_object.cpp:745-797 | each pop leaves exactly the elements from the other end, or none |
| `ListLaws.TrimByIndex` | src/redis_list_object.cpp:835-877 | LTRIM leaves the slice between the two positions, cut down to the list |
| `ListLaws.SetByIndex` | src/redis_list_object.cpp:680-703 | LSET writes one position, -1 being the last, and no other |
| `ListLaws.InsertByIndex` | src/redis_list_object.cpp:648-678 | the new element stands directly before, or directly after, the first occurrence of the pivot |
| `ListSpec.LRemAgreesIff` | src/redis_list_object.cpp:879-931 | commit removes what LREM means exactly when \|count\| < 2^31 or the truncated counter still covers every occurrence |
| `ListSpec.LRemTruncationWitness` | src/redis_list_object.cpp:879-931 | a count of 2^31 on a one-element list: execute empties it, commit removes nothing |
| `ListRuns.ExecuteOn` | src/redis_list_object.cpp:80-646 | for every command, the verdict and the rewritten arguments are those of the specification |
| `ListRuns.CommitOn` | src/redis_list_object.cpp:648-967 | for every command, the list afterwards is the specified one, the cached length is exact, and the record of size assertions is updated by those this commit reaches |
| `ListRuns.VerdictIsTruthIff` | src/redis_list_object.cpp:153-646 | for every accepted command, ModifiedToEmpty was reported if and only if the committed list is empty, except exactly for an LREM of every element whose 32-bit counter stops before the last one |
| `ListRuns.VerdictCanMislead` | src/redis_list_object.cpp:496-553 | such an LREM: the verdict says emptied, the commit changes nothing |
| `ListRuns.CommitIgnoresNormalisation` | src/redis_list_object.cpp:835-877 | committing the raw arguments and committing the arguments rewritten by execute give the same list |
| `ListRuns.AcceptedIffForeseen` | src/redis_list_object.cpp:80-646 | a command reaches commit exactly when execute foresees a change |
| `ListRuns.RunPrimary` | src/redis_list_object.cpp:80-967 | a whole run of commands on the object computes the specified list and keeps the cached length exact throughout; the size assertions of all its commits hold exactly when no accepted LMOVE push overshoots |
| `ListRuns.ReplicaAgrees` | src/redis_list_object.cpp:837-844 | for every command sequence, replaying only the commits of the accepted commands with their raw arguments, without assertions, ends in the primary's list |
| `ListRuns.AssertionsIff` | src/redis_list_object.cpp:648-967 | on every accepted command from a list within the limit plus 4, the commit's size assertions hold, except exactly for an LMOVE push whose element and header do not fit |
| `ListRuns.AssertingReplicaIff` | src/redis_list_object.cpp:648-967 | with the size assertions compiled in, the replay reaches the primary's list if and only if no LMOVE push of the run overshot; otherwise it stops |
| `ListRuns.GrowthIsBounded` | src/redis_list_object.cpp:80-494 | every accepted growing command leaves at most the limit, or four bytes more for the LMOVE push |
| `ListRuns.RunIsBounded` | src/redis_list_object.cpp:80-967 | over every run the encoding stays within the limit plus 4 |
| `ListRuns.LMovePushWithinIff` | src/redis_list_object.cpp:239-253 | an LMOVE push stays within the limit exactly when the test would have passed with the header counted |
| `ListRuns.BoundIsTight` | src/redis_list_object.cpp:239-253 | one LMOVE push onto a missing key reaches the limit plus 4, and fails the assertion of its commit |
| `ListObject.RedisListObject.Serialize` | include/redis_list_object.h:61-117 | plain and TTL lists: the bytes are the format's, and as many as the cached length announced |
| `ListObject.RedisListObject.Deserialize` | include/redis_list_object.h:119-142 | reads back exactly the list and the expiry time, from anywhere in a buffer, and recomputes the cached length exactly |
| `SetObject.RedisHashSetObject.Serialize` | src/redis_set_object.cpp:429-488 | for every iteration order: the format's bytes, as many as announced |
| `SetObject.RedisHashSetObject.Deserialize` | src/redis_set_object.cpp:490-516 | any enumeration reads back to the same set with an exact cached length |
| `HashObject.RedisHashObject.Serialize` | include/redis_hash_object.h:77-145 | for every iteration order: the format's bytes, as many as announced |
| `HashObject.RedisHashObject.Deserialize` | include/redis_hash_object.h:147-180 | any enumeration reads back to the same fields with an exact cached length |
| `ZsetObject.RedisZsetObject.Serialize` | include/redis_zset_object.h:61-125 | for every iteration order, NaN scores included: the format's bytes, as many as announced |
| `ZsetObject.RedisZsetObject.Deserialize` | include/redis_zset_object.h:127-158 | for any enumeration the two copies agree afterwards and hold what the insertions keep; that is the map written, with an exact cached length, if and only if it has no NaN score or a single member |
| `ZsetObject.KeptIff` | include/redis_zset_object.h:127-158 | reading back keeps a sorted set, in every order of writing, if and only if it has no NaN score or a single member; otherwise members are lost, none invented |
| `ZsetObject.NaNWitness` | include/redis_zset_object.h:127-158 | two members, one scored NaN: one is lost in either order |
| `StringObject.RedisStringObject.Serialize` | include/redis_string_object.h:71-123 | plain and TTL strings: the format's bytes and their number |
| `StringObject.RedisStringObject.Deserialize` | include/redis_string_object.h:125-145 | reads back the string and the expiry time |
| `Bytes.LEAt` | include/redis_list_object.h:61-117 | byte i of a stored number is its digit of weight 256^i |
| `Bytes.BEAt` | src/redis_rdb_restore.cpp:74-88 | byte i of a k-byte RDB length is its digit of weight 256^(k-1-i) |
| `WireFormats.StoredStrings` | include/redis_list_object.h:61-117 | a stored string, list or set, byte by byte: type, count, strings behind their 32-bit lengths |
| `WireFormats.SizedLayout` | include/redis_list_object.h:61-117 | a string of fewer than 256 bytes stands behind its length and three zero bytes |
| `WireFormats.StoredUntil` | src/redis_set_object.cpp:429-488 | a stored set with an expiry time: its own type byte, then the time in eight bytes |
| `WireFormats.StoredMaps` | include/redis_hash_object.h:77-145 | a stored hash and a stored sorted set, byte by byte |
| `WireFormats.Dumped` | src/redis_rdb_restore.cpp:1424-1489 | the dumps of the five types, byte by byte |
| `WireFormats.RestoredTypes` | src/redis_rdb_restore.cpp:948-1028 | what RESTORE stores starts with the type byte of the object, twice |
| `WireFormats.ZiplistLayout` | src/redis_rdb_restore.cpp:715-840 | a ziplist of a string and a small number, byte by byte |
| `WireFormats.ListpackLayout` | src/redis_rdb_restore.cpp:451-584 | a listpack of a string and a small number, byte by byte |
| `WireFormats.IntsetLayout` | src/redis_rdb_restore.cpp:636-687 | an intset of one number, byte by byte |
| `WireFormats.LzfLayout` | src/redis_rdb_restore.cpp:878-946 | a compressed stream with a back-reference, byte by byte |
| `WireFormats.Base64Vectors` | include/base64url.h:61-97 | vectors of section 10 of RFC 4648, and one with both letters that base64url changes |
| `RandMap.GenRandMap` | src/eloq_algorithm.cpp:35-77 | the result slots are exactly 0..count-1 and the keys lie in [0, size); slot i gets rnd(i) mod size, or without repetition the first key from there on, going round, that no earlier slot has; it terminates |
| `RandMap.Probe` | src/eloq_algorithm.cpp:56-75 | with the map cursor on an occupied slot, the lockstep probe ends at the first free slot behind it, going round |
| `RandMap.FreeSlot` | src/eloq_algorithm.cpp:56-75 | fewer keys than slots leave a free one, which is what ends the probe |
| `SetObject.RedisHashSetObject.CommitSAdd` | src/redis_set_object.cpp:375-400 | adds exactly the arguments, cached length exact |
| `SetObject.RedisHashSetObject.CommitRemove` | src/redis_set_object.cpp:402-427 | SREM and SPOP commits remove exactly the arguments, cached length exact, and tell whether the set is empty |
| `SetObject.RedisHashSetObject.ExecuteSRandMember` | src/redis_set_object.cpp:140-218 | a negative count gives that many members; a count up to the size gives that many pairwise distinct ones; a larger one gives all. They are those at the drawn indices, in the order drawn, or on the shortcut the first in iteration order |
| `SetObject.RedisHashSetObject.ExecuteSPop` | src/redis_set_object.cpp:220-304 | one member without a count, count many up to the size, and all of them beyond; pairwise distinct, chosen as above, with the verdict that removing exactly them deserves |
| `SetObject.RedisHashSetObject.SPop` | src/redis_set_object.cpp:220-304 | execute and commit together: the set loses exactly the reported members, as many as asked for or all; ModifiedToEmpty was reported if and only if it is now empty, and the cached length is exact |
| `SetObject.RedisHashSetObject.Collect` | src/redis_set_object.cpp:140-218 | the walk over the drawn indices puts the right member into every result slot |
| `SetObject.DrawnEmptiesIff` | src/redis_set_object.cpp:220-304 | drawn members empty the set exactly when their number reaches its size |
| `SetObject.RedisHashSetObject.ExecuteSRem` | src/redis_set_object.cpp:94-113 | the count is the number of arguments found, repeats included, and the verdict follows from it |
| `SetObject.SRemVerdictIff` | src/redis_set_object.cpp:94-113 | that verdict is right exactly when fewer arguments than members were found or all members are named |
| `SetObject.SRemVerdictDistinct` | src/redis_set_object.cpp:94-113 | so it is right for pairwise distinct arguments |
| `SetObject.SRemRepeatWitness` | src/redis_set_object.cpp:94-113 | with a repeated argument it can report an emptied set that is not empty |
| `Decimal.String2ll` | include/redis_string_num.h:58-136 | accepts a string if and only if it is the canonical decimal of a 64-bit integer, and returns that integer |
| `Decimal.Int64TextLength` | src/redis_hash_object.cpp:211-252 | the decimal of a 64-bit integer has at most 20 characters, the number HINCRBY reserves |
| `Decimal.AdditionOverflowIff` | include/redis_string_num.h:351-364 | the addition test holds exactly for sums outside 64 bits |
| `Decimal.MultiplicationOverflowIff` | include/redis_string_num.h:376-403 | the multiplication test holds exactly for products outside 64 bits |
| `HashObject.RedisHashObject.SetField` | src/redis_hash_object.cpp:72-97 | writes the field, and the cached length changes by exactly what the encoding changes by |
| `HashObject.RedisHashObject.CommitHset` | src/redis_hash_object.cpp:99-106 | the pairs are put one after the other; cached length exact |
| `HashObject.LastPairWins` | src/redis_hash_object.cpp:99-106 | a field named several times gets the value of its last pair |
| `HashObject.UnnamedStays` | src/redis_hash_object.cpp:99-106 | a field that no pair names keeps its value, or stays away |
| `HashObject.RedisHashObject.CommitHdel` | src/redis_hash_object.cpp:173-186 | removes exactly the named fields, cached length exact, and tells whether the hash is empty |
| `HashObject.RedisHashObject.ExecuteHIncrBy` | src/redis_hash_object.cpp:211-252 | the code is that of the decision below; the reply is the sum of the increment and what the field holds, 0 for a missing field, and fits 64 bits |
| `HashObject.NotAnIntegerIff` | src/redis_hash_object.cpp:211-252 | refused as not an integer if and only if the field exists and holds no decimal of a 64-bit integer |
| `HashObject.CodeIff` | src/redis_hash_object.cpp:211-252 | otherwise refused as an overflow if and only if the sum is outside 64 bits or reaches a bound from the same side; then as too big if and only if the encoding with 20 bytes for the value exceeds the limit; and accepted otherwise, writing the decimal of the sum |
| `HashObject.MissingFieldAccepted` | src/redis_hash_object.cpp:211-252 | a missing field counts as 0: any increment strictly between the bounds is accepted when 28 bytes and the name fit, and becomes the value |
| `HashObject.RedisHashObject.CommitHincrby` | src/redis_hash_object.cpp:298-335 | writes the decimal of the increment plus what the field holds, 0 for a missing field; cached length exact |
| `HashObject.RangeRejectIff` | src/redis_hash_object.cpp:211-252 | the range test refuses exactly the overflowing sums and the sums that reach a bound from the same side |
| `HashObject.RangeRejectWitness` | src/redis_hash_object.cpp:211-252 | it refuses 0 + LLONG_MAX, which does not overflow |
| `HashObject.StepIsSafe` | src/redis_hash_object.cpp:298-335 | one accepted HINCRBY writes a number that re-parses to the sum within the 20 reserved bytes and within the size limit |
| `HashObject.RunConserves` | src/redis_hash_object.cpp:211-335 | over any run of HINCRBYs the size limit holds, a numeric field stays numeric, and its value is the start value plus the accepted increments |
| `HashObject.WrittenFieldReparses` | src/redis_hash_object.cpp:211-335 | a field written by HINCRBY is never refused as not an integer later |
| `ScanCursor.ScanCursorCache.CacheScanCursor` | src/redis_connection_context.cpp:124-158 | after any number of calls the queue is the window of the last 100 hashes, every stored count is the hash's multiplicity in it, every content is the latest one, and no queue entry points to an erased node |
| `ScanCursor.ScanCursorCache.FindScanCursor` | src/redis_connection_context.cpp:160-170 | a lookup succeeds if and only if the hash was issued in the last 100 calls, and returns the content of the latest such call |
| `ScanCursor.ScanCursorCache.Evict` | src/redis_connection_context.cpp:141-156 | dropping the oldest entry erases its node exactly with the last reference |
| `PubSub.PubSubManager.SubscribeTopic` | src/pub_sub_manager.cpp:65-78 | both sides of the index record the subscription; the client-side assertion holds; a repeat changes nothing |
| `PubSub.PubSubManager.Subscribe` | src/pub_sub_manager.cpp:39-58 | the client's own set gains exactly the named channels (or patterns) and the whole index stays consistent |
| `PubSub.PubSubManager.UnsubscribeTopic` | src/pub_sub_manager.cpp:165-198 | both sides forget the subscription, an empty set is erased, and a client that was not subscribed is told so |
| `PubSub.PubSubManager.Unsubscribe` | src/pub_sub_manager.cpp:80-157 | with topics, exactly those leave the client's own set; without, all of that kind; the index stays consistent and without empty sets |
| `PubSub.PubSubManager.Disconnect` | src/redis_connection_context.cpp:46-63 | after the destructor no channel's or pattern's set mentions the client, and the rest of the index is unchanged and consistent |
| `PubSub.PubSubManager.UnsubscribeAll` | src/pub_sub_manager.cpp:200-237 | removes the client from every set of both kinds, changes nothing else and leaves no empty set |
| `PubSub.PubSubManager.Publish` | src/pub_sub_manager.cpp:403-457 | every live client gets the message exactly once for the channel and once per matching pattern in its own sets, nobody else does, and the result is the number of deliveries |
| `PubSub.Client.Note` | src/redis_connection_context.cpp:65-69 | the assertion that the channel is new, as a precondition every caller meets |
| `PubSub.Client.Forget` | src/redis_connection_context.cpp:71-75 | the assertion that the channel is there, likewise |
| `Base64Url.Base64UrlEncode` | include/base64url.h:61-97 | the text is the encoding of the bytes: their bit string in sextets, zero-filled, in the URL alphabet (sections 3.2, 3.5 and 5 of RFC 4648) |
| `Base64Url.Base64UrlDecode` | include/base64url.h:11-59 | succeeds if and only if the text is the encoding of some bytes of the given number, and then yields them |
| `Base64Url.EncodingUnique` | include/base64url.h:61-97 | bytes have one encoding |
| `Base64Url.DecodingUnique` | include/base64url.h:11-59 | a text has one decoding |
| `Base64Url.EncodeThenDecode` | include/base64url.h:11-97 | decoding an encoding gives the bytes back |
| `Base64Url.DecodeThenEncode` | include/base64url.h:11-97 | any accepted text is the encoding of what it decoded to |
| `Base64Url.Shifted` | include/base64url.h:33-49 | the wrap of the 32-bit accumulator never reaches the bits still pending |
| `B255.Encode` | src/b255.cpp:11-28 | 1 to 9 bytes, none of them ':', without superfluous leading zero digit, denoting the id |
| `B255.Decode` | src/b255.cpp:35-58 | refuses exactly the empty, the over-long, those with ':' and those above 2^64 - 1; otherwise returns the number denoted |
| `B255.EncodeThenDecode` | src/b255.cpp:11-58 | decoding inverts encoding for every 64-bit id |
| `B255.DecodeThenEncode` | src/b255.cpp:11-58 | encoding again gives the string back exactly when it had no superfluous leading zero digit |
| `B255.CanonicalUnique` | src/b255.cpp:11-28 | an id has one spelling without leading zero digit |
| `B255.DigitsInOrder` | src/b255.cpp:11-58 | the digits are the bytes other than ':', in their order |
| `B255.Prefix` | src/b255.cpp:30-33 | the prefix is the spelling and the delimiter |
| `B255.NamespacesAreDisjoint` | src/b255.cpp:30-33 | for different ids no key under one prefix equals any key under the other |
| `B255.Parse` | include/namespace/prefix.h:28-53 | succeeds exactly when the key splits into a non-empty namespace, an epoch that decodes, and the user's key; the answer is that split |
| `B255.ParsesUnique` | include/namespace/prefix.h:28-53 | there is at most one such split |
| `B255.MakeThenParse` | include/namespace/prefix.h:16-53 | a key built under a prefix parses back into its parts |
| `B255.MakePrefixNext` | include/namespace/prefix.h:56-74 | the keys from the prefix up to the result are exactly those that start with the prefix; the result is empty exactly when every byte is 0xFF |
| `Rdb.LenInverse` | src/redis_rdb_restore.cpp:90-111 | reading a length gives back every 64-bit number written, and leaves the rest alone |
| `Rdb.LenForms` | src/redis_rdb_restore.cpp:188-243 | each of the four forms reads as its number, whether or not a shorter one exists |
| `Rdb.LenBadIff` | src/redis_rdb_restore.cpp:188-243 | refused are exactly the empty, the cut-off, and those that start with 0x82 to 0xBF; from 0xC0 on a special encoding is marked |
| `Rdb.ShortestLen` | src/redis_rdb_restore.cpp:90-111 | no shorter byte string reads as the same length as the one written |
| `Rdb.StringInverse` | src/redis_rdb_restore.cpp:113-117 | reading a string gives back the string written |
| `Rdb.IntStringInverse` | src/redis_rdb_restore.cpp:264-297 | the three integer encodings read as the decimal text of the integer, sign included |
| `Rdb.CompressedInverse` | src/redis_rdb_restore.cpp:298-317 | a compressed string reads as the expansion of its tokens, whatever byte lies behind the input |
| `Rdb.SignExtendIsSigned` | src/redis_rdb_restore.cpp:418-424 | flipping the sign bit and subtracting it is two's complement |
| `Rdb.Reader.ReadLen` | src/redis_rdb_restore.cpp:188-243 | the cursor reads what the format function says, for every input, and fails exactly when it does |
| `Rdb.Reader.ReadString` | src/redis_rdb_restore.cpp:245-321 | likewise for strings in all their encodings, whatever byte lies behind the input; it is recorded when that byte was read |
| `Rdb.PastIgnored` | src/redis_rdb_restore.cpp:298-317 | the byte behind the input matters only to a compressed string at its very end that is cut inside a back-reference |
| `Lzf.LzfDecompress` | src/redis_rdb_restore.cpp:878-946 | for every stream and every byte behind it, succeeds exactly on what decompresses to the declared number of bytes (at most 64 MiB), yields them, and tells whether the byte behind the stream was read |
| `Lzf.AcceptedIff` | src/redis_rdb_restore.cpp:878-946 | a stream is accepted if and only if it is the encoding of a well-formed token sequence of that length, or is cut inside a back-reference and the byte behind it completes it to one |
| `Lzf.DecompressInvertsEncode` | src/redis_rdb_restore.cpp:878-946 | decompressing an encoded token sequence is its token-by-token expansion |
| `Lzf.DecompressOnlyEncodings` | src/redis_rdb_restore.cpp:878-946 | nothing but an encoding decompresses without reading behind the stream |
| `Lzf.OverreadsIff` | src/redis_rdb_restore.cpp:914-929 | the byte behind the stream is read if and only if the stream is an encoding within the declared length followed by the first two bytes of a long back-reference |
| `Lzf.AsIfThere` | src/redis_rdb_restore.cpp:914-929 | a stream that reads the byte behind it decompresses as if that byte belonged to it |
| `Lzf.OverreadWitness` | src/redis_rdb_restore.cpp:914-929 | a four-byte stream that is accepted or refused by what lies behind it |
| `Lzf.CopyBack` | src/redis_rdb_restore.cpp:937-941 | the byte-by-byte copy repeats the last `distance` bytes periodically, overlap or not |
| `Lzf.ReadToken` | src/redis_rdb_restore.cpp:898-935 | one control byte with its length and offset bytes is read as the token it encodes; the end of the stream is looked for where the source looks, and reading past it is reported exactly |
| `Listpack.ListpackInverse` | src/redis_rdb_restore.cpp:586-634 | decoding an encoded listpack of any strings and integers gives their texts and uses up the blob |
| `Listpack.BackLenInverse` | src/redis_rdb_restore.cpp:426-449 | the length behind an element, low seven bits first, reads back |
| `Listpack.EntryInverse` | src/redis_rdb_restore.cpp:451-584 | one element reads back, whichever of the nine forms it has |
| `Listpack.I13Inverse` | src/redis_rdb_restore.cpp:474-484 | 13-bit integers, sign extension included |
| `Listpack.RedisListpackIff` | src/redis_rdb_restore.cpp:426-449 | a listpack in Redis's own layout, high bits first, is accepted exactly when no element takes more than 127 bytes |
| `Listpack.LongElementWitness` | src/redis_rdb_restore.cpp:426-449 | a Redis listpack of one 126-byte string is refused |
| `Listpack.DecodeBackLen` | src/redis_rdb_restore.cpp:426-449 | the loop reads what the format function says, in 64 bits and at most 10 bytes |
| `Listpack.ReadListPackEntry` | src/redis_rdb_restore.cpp:451-584 | the cursor reads what the format function says and fails exactly when it does |
| `Listpack.ReadListPackAll` | src/redis_rdb_restore.cpp:586-634 | likewise for the whole blob: size, count and end marker are checked |
| `Listpack.ReadInt24` | src/redis_rdb_restore.cpp:531-544 | three bytes with sign extension are the 24-bit integer |
| `Ziplist.ZiplistInverse` | src/redis_rdb_restore.cpp:842-876 | decoding an encoded ziplist gives its texts and uses up the blob, whatever the six header bytes it ignores |
| `Ziplist.EntryInverse` | src/redis_rdb_restore.cpp:715-840 | one element reads back, whichever of the nine forms it has and whatever precedes it |
| `Ziplist.ReadZipListEntry` | src/redis_rdb_restore.cpp:715-840 | the cursor reads what the format function says and fails exactly when it does |
| `Ziplist.ReadZipListAll` | src/redis_rdb_restore.cpp:842-876 | likewise for the whole blob |
| `Intset.IntsetInverse` | src/redis_rdb_restore.cpp:636-687 | decoding an encoded intset of width 2, 4 or 8 gives the decimal texts of its integers |
| `Intset.ParseIntSetBlob` | src/redis_rdb_restore.cpp:636-687 | the loop reads what the format function says; the size check leaves nothing that can fail |
| `BlobGrammar.IntsetIff` | src/redis_rdb_restore.cpp:636-687 | a blob is read as an intset if and only if it is the encoding of integers of one of the three widths |
| `BlobGrammar.ZiplistIff` | src/redis_rdb_restore.cpp:689-876 | a blob is read as a ziplist if and only if it has its own size, any six bytes, elements of the nine forms behind any lengths of their predecessors, and the end marker |
| `BlobGrammar.ListpackIff` | src/redis_rdb_restore.cpp:426-634 | a blob is read as a listpack if and only if it has its own size, its count or 0xFFFF, elements of the nine forms each before some spelling of its own length, and the end marker |
| `RdbDecode.DecodeContent` | src/redis_rdb_restore.cpp:1067-1415 | for every payload, type and byte behind the payload, the entries decoded are those of the format, and it fails exactly when that does |
| `RdbDecode.ReadCount` | src/redis_rdb_restore.cpp:140-156 | a count passes exactly when it is at most 2^20 and that many minimal items fit into what remains |
| `RdbDump.DecodeInvertsDump` | src/redis_rdb_restore.cpp:1424-1489 | decoding a dump gives its entries back in order, and fails exactly above 2^20 entries |
| `RdbDump.TrailingRefused` | src/redis_rdb_restore.cpp:1067-1415 | a dump with anything behind it is refused |
| `RdbDump.CountedIff` | src/redis_rdb_restore.cpp:140-156 | the count check refuses a genuine dump exactly when it has more than 2^20 entries |
| `RdbDump.CountedReadsIff` | src/redis_rdb_restore.cpp:140-156 | a counted collection is read if and only if every item is good and there are at most 2^20 of them, and then gives their values in order |
| `RdbDump.CapWitness` | src/redis_rdb_restore.cpp:140-156 | a list of 2^20 + 1 empty strings is dumped and then refused |
| `RdbCompact.ElementsRestore` | src/redis_rdb_restore.cpp:1220-1411 | lists as a ziplist, sets as an intset and sets as a listpack decode to their elements in order; a listpack in Redis's layout does so if and only if no element takes more than 127 bytes |
| `RdbCompact.ZiplistPairsRestore` | src/redis_rdb_restore.cpp:1248-1274 | hashes and sorted sets as a ziplist decode to their pairs; refused exactly when an entry has no partner or a score is not a number |
| `RdbCompact.ListpackPairsRestore` | src/redis_rdb_restore.cpp:1308-1353 | the same for listpacks, which in Redis's layout are also refused when an element takes more than 127 bytes |
| `RdbCompact.ZipNodesRestore` | src/redis_rdb_restore.cpp:1276-1306 | a list split over ziplists decodes to their elements in order, and is refused exactly above 2^20 nodes |
| `RdbCompact.PackNodesRestoreIff` | src/redis_rdb_restore.cpp:1355-1395 | a list split over plain nodes and listpacks decodes to their elements in order if and only if there are at most 2^20 nodes and every listpack can be read |
| `RdbCompact.TextScoresRestoreIff` | src/redis_rdb_restore.cpp:1166-1191 | a sorted set with scores as text decodes if and only if it has at most 2^20 items and every score is a number |
| `RdbRestore.ConvertEloqObjectToRedisDumpPayload` | src/redis_rdb_restore.cpp:1424-1489 | the dump lists the object's entries, each once, in some order |
| `RdbRestore.DecodeRedisObjectPayload` | src/redis_rdb_restore.cpp:1067-1415 | a payload is accepted exactly when it decodes, and becomes the stored form of what it holds, for any byte behind it |
| `RdbRestore.SerializeListPayload` | src/redis_rdb_restore.cpp:956-970 | the outer type byte and the list's encoding |
| `RdbRestore.SerializeSetPayload` | src/redis_rdb_restore.cpp:972-986 | the outer type byte and the encoding of the set of elements, repeats merged |
| `RdbRestore.SerializeHashPayload` | src/redis_rdb_restore.cpp:988-1004 | the outer type byte and the encoding of the fields, later pairs winning |
| `RdbRestore.SerializeZSetPayload` | src/redis_rdb_restore.cpp:1006-1028 | the outer type byte and the encoding of the items as read |
| `RdbRestore.Load` | src/redis_rdb_restore.cpp:948-1028 | the stored form deserializes to the object it was made for, unless that is a sorted set of several members with a NaN score, and then never |
| `RdbRestore.RunsAreStorable` | src/redis_list_object.cpp:80-967 | whatever a run of list commands leaves behind meets the size conditions of storing and dumping |
| `RdbRestore.DumpThenRestore` | src/redis_rdb_restore.cpp:1067-1489 | for every string, list, set, hash and sorted set, restoring a dump succeeds if and only if there are at most 2^20 entries, and gives an equal object if and only if it is not a sorted set of several members with a NaN score |

## Left out

- Network, TLS, server start-up, replies and command parsing: plumbing around the logic modelled here.
- The Lua interpreter, the transaction engine, the catalog and command dispatch: their code lies outside the modelled files.
- Sorted-set commands, string bit operations, blocking multi-step commands, and the read-only commands LRANGE, LINDEX, LPOS, LLEN, HGET and their like: they would only add easy members.
- HINCRBYFLOAT and the other conversions between decimal text and floating point; in RESTORE the conversion is the parameter `toDouble`.
- The case-insensitive branch of the glob matcher.
- Bucket scan cursors: a counter and a map, with no property beyond their assignments.
- EloqString's storage (stack, heap or view) and the choice between moving and cloning: strings are their content.
- `RedisListObject::operator==`: lists are compared as sequences.
- The lock of the publish/subscribe manager: its methods are taken as atomic, as the lock makes them.
- The FNV hash is a function of the cursor and nothing more; colliding cursors are covered, its values are not.
- FpPowers.SearchFrom: the start index is an argument, because the source computes it in floating point; the search is proved from every start.
- HashObject.RedisHashObject.Deserialize: asks that the buffer holds an encoding, because the source trusts its input; the same holds for the other four types.
- ZsetObject.RedisZsetObject.Deserialize: with NaN scores the ordered copy is modelled by what its insertion keeps and drops, not by the shape of its tree.
- SetObject.RedisHashSetObject.ExecuteSRandMember: a count of -2^63, whose negation overflows in the source, is negated exactly; the bucket count of the hash table is an input; it only chooses between two ways of sampling, and the contract holds for both. How evenly members are drawn is not modelled.
- Lzf.LzfDecompress: the byte behind a stream that ends inside a back-reference is the parameter `beyond`; what lies in memory there is not modelled. For a string inside a payload it is the next byte of the payload, or the parameter `past` at its end.
- RdbRestore.DumpThenRestore: asks for sizes within 32 bits, which every stored object has.
- FpText.FpconvDtoa: whether the text of a negative double takes 24 or 25 characters is left open when it is in the band from 10^23 to 10^24 and its only multiples of 10^8 lie within 2^-60 of its value from a halfway point; there it depends on the rounding of the scaled bounds, and so on the cached power at which the search ends; its start is computed in floating point.
- Both overloads of Serialize (to a vector at an offset, and to a string) write the same bytes; the model returns them.
