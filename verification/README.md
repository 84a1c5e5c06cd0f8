# A verified model of the search server

The repository is a search server in the style of muduo with its own copies of cppjieba (Chinese word
segmentation), tinyxml2, a simhash library and the limonp utilities. This project models the parts of it
whose correctness is decided by intricate code, and proves what that code is for.

## What is modelled

**Segmentation** (`Unicode`, `PreFilter`, `Trie`, `MPSegment`, `HMMSegment`, `MixSegment`). Bytes are decoded into
runes, split at separators, looked up in a linked trie, cut by dynamic programming, and the left-over single runes
are cut again with a hidden Markov model. The dictionary cut is proved to have the highest score of all
segmentations and, of those that share it, the shorter words first; the tags found by Viterbi to have the highest score
of all that end a word, with a word at each E and S and nowhere else; every block of single runes between kept words to
be cut as one stretch; and the whole pipeline to lose nothing: the words of a sentence that decodes are consecutive and
concatenate to it.

**tinyxml2** (`StrPair`, `Entities`, `XmlPrinter`, `XmlParser`, `XmlRoundTrip`, `XmlInputs`, `XmlDocument`, `Dom`, `MemPool`). The
in-place decoding of text is related to a recursive decode by an exact condition; the stateful printer is proved to write
the compact form of a tree, the parser with its error field and nesting counter to meet a recursive specification, and
parsing to invert printing; which names, white space, attributes, end tags and declarations are read and which refused is
stated over alphabets written out. The document tree is a heap of linked nodes; every insertion and deletion is proved against a
map from nodes to lists of children, and clearing a document to give every node's item back to the pool.

**Hashes** (`Md5`, `Jenkins`). MD5 over any chunking of a message equals the definition in RFC 1321, and the three
differently aligned loops of `hashlittle2` compute one hash, whose rotations are pinned bit by bit, whose assignments are
written out, and which gives the known answers of lookup3 for "Four score and seven years ago" and the empty key.

**Protocols** (`ThreadPool` with `BoundedQueue`, `EventLoop`, `AsyncLogging`, `TcpConnection` with `Buffer`, `MyCache` with
`Cache`). The thread pool and the event loop are state machines of which one step is one critical section, system
call or callback; their theorems hold for every run. The others are objects with one method for each atomic
part, so that an interleaving is a sequence of calls.

**Timers and the index** (`TimerQueue`, `InvertedIndex`). The timerfd is always armed in time for the earliest timer, even
while callbacks add timers; the inverted index and its intersection agree with a scan of the pages.

`Common` holds what several modules share.

## Where the code surprises

The model follows the code, also where a comment says otherwise.

- offline/tinyxml2.cc:1841-1845 says that duplicate attributes go unnoticed; the condition at line 1836 rejects them, and so
  does the model (`XmlInputs.DuplicateRefused`).
- offline/tinyxml2.cc:341-345: at an ampersand that starts no entity the pass moves both pointers and writes nothing, so
  the result keeps whatever the buffer has there. `StrPair.InPlaceDecodesIff` says exactly when that does no harm, and
  `StrPair.SkipGoesWrong` gives a text on which it does.
- offline/tinyxml2.cc:456-549: the digits of a reference are read backwards to the last `x` or `#`, so `&#x12x34;` is read
  as 34 in base 16 (`Entities.ReadFromTheLastX`). `Entities.ReferenceAcceptedIff` says which references are accepted and
  as what, `Entities.ReadAsWrittenIff` which of them are read whole. The sum of the digits wraps, so `&#x100000041;` writes
  an `A` (`Entities.WrittenWrong`); `Entities.WrittenRightIff` says which references write their number.
- offline/tinyxml2.cc:931: inserting after a node the node that is already next to it and the last child follows a null
  pointer. `Dom.XMLDocument.WhatFollows` shows that this is the only such case, and `Dom.XMLDocument.LastButOne` builds a
  document in it; that it is not so is a precondition of `InsertAfterChild`.
- net/EventLoop.cc:96-106: a functor queued by the loop's own thread outside `loop()` does not wake the first poll, unless
  something else does (`EventLoop.QueuedOutsideSleeps`). It is the only way to strand one (`EventLoop.RunStrandsIff`).
- lib/cppjieba/limonp/ThreadPool.hpp:60-69: an `Add` that is in progress when `Stop` begins can be left behind, its closure
  never run. `ThreadPool.StopRunsAllIff` shows that `Stop` is sure to leave nothing if and only if there is none.
- process/WordQuery.cc:121-124: a query without words sets the answer for "nothing found" and goes on; `getDocs` then reads
  the first of no words. `InvertedIndex.DoQuery` shows that this happens for those queries and no others.
- lib/cppjieba/limonp/Md5.hpp:271: `i + 63` is computed in 32 bits. `Md5.MD5.LoopEndsIff` shows that the loop then stops where it
  should if and only if the chunk and the bytes waiting in the buffer stay below 2^32, which `Update` asks for.
- net/EventLoop.cc:60: `loop()` clears a quit made before it. One made later ends it (`EventLoop.QuitEndsLoop`).
- process/Cache.cc:35-40: a word that is already in the cache keeps its old result when it is written again
  (`MyCache.HeldSince`).

## How to read it

Bytes are numbers from 0 to 255, characters of XML text are byte-valued `char`s, and scores are `real`. Machine widths are written out
where they matter: 32-bit and 64-bit wrap-around in `Md5`, `Jenkins` and `StrPair`, 32-bit offsets in `Unicode`, the
eventfd's limit in `EventLoop`. Where the source moves pointers through a buffer or fills an array, so does the model,
and the loop is proved against a function on sequences; where it links objects, the model links objects. What such a
function means is stated again without its name, by the lemmas listed behind the others of their module. `dafny verify
dfyconfig.toml` checks the project.

## Model

| member | source | states |
|---|---|---|
| `Unicode.DecodeRuneInString` | lib/cppjieba/Unicode.hpp:87-140 | a rune takes at most four bytes and never more than there are; decoding fails exactly on empty input, a lead byte above 0xf7, or fewer bytes than the lead byte announces |
| `Unicode.DecodeUtf8` | lib/cppjieba/Unicode.hpp:87-140 | every code point of up to 21 bits is decoded from its UTF-8 form (section 3 of RFC 3629), whatever follows it |
| `Unicode.DecodeRunesInString` | lib/cppjieba/Unicode.hpp:142-157 | succeeds exactly on the decodable strings; the runes then lie side by side over all bytes, numbered in order, and each says what is written at its offset; on failure there are none |
| `Unicode.EncodedDecodes` | lib/cppjieba/Unicode.hpp:142-157 | text in UTF-8 always decodes |
| `Unicode.GetWordFromRunes` | lib/cppjieba/Unicode.hpp:193-198 | the word is exactly the bytes under its runes and knows its byte offset, rune offset and rune count; its 32-bit subtractions never wrap |
| `Unicode.GetWordsFromWordRanges` | lib/cppjieba/Unicode.hpp:206-210 | one word per range, in whatever order the ranges come, spelled by its runes; ranges that cover the text give words that stand side by side over the whole string |
| `Unicode.WordsConsecutive` | lib/cppjieba/Unicode.hpp:206-210 | words spelled by ranges that cover the runes from b on are consecutive in the bytes from there to the end |
| `Unicode.ConsecutiveFlatten` | lib/cppjieba/Unicode.hpp:206-223 | consecutive words concatenate to the bytes they span |
| `Unicode.Utf8Is` | lib/cppjieba/Unicode.hpp:87-140 | the UTF-8 form that is decoded has the marks of section 3 of RFC 3629, the bits of the code point between them, and no more bytes than it needs |
| `Unicode.DecodeOne` | lib/cppjieba/Unicode.hpp:92-95 | a byte below 128 is a rune by itself |
| `Unicode.DecodeTwo` | lib/cppjieba/Unicode.hpp:96-104 | two bytes with the marks of RFC 3629 give the eleven bits between them |
| `Unicode.DecodeThree` | lib/cppjieba/Unicode.hpp:105-119 | three bytes give their sixteen bits |
| `Unicode.DecodeFour` | lib/cppjieba/Unicode.hpp:120-136 | four bytes give their twenty-one bits |
| `Unicode.CoversIff` | lib/cppjieba/Unicode.hpp:206-210 | ranges cover a stretch if and only if the first begins and the last ends it, none is empty and each begins behind the one before |
| `PreFilter.PreFilter.constructor` | lib/cppjieba/PreFilter.hpp:17-24 | the sentence is the tiling of a decodable text and empty for any other |
| `PreFilter.PreFilter.Next` | lib/cppjieba/PreFilter.hpp:30-45 | pieces follow each other without gap; each is one separator, or a run without separators that ends at a separator or at the end |
| `Trie.EdgesComplete` | lib/cppjieba/Trie.hpp:81-118 | the edges at a rune are exactly the single rune and the dictionary words starting there of at most max_word_len runes, each with its own unit |
| `Trie.Trie.InsertNode` | lib/cppjieba/Trie.hpp:120-143 | the linked trie then means the old dictionary with the key bound to the unit; the empty key changes nothing |
| `Trie.Trie.AddChild` | lib/cppjieba/Trie.hpp:132-136 | hanging a new node under an existing one keeps every node at the prefix it stands for |
| `Trie.Trie.Find` | lib/cppjieba/Trie.hpp:61-79 | walking the links gives the unit last inserted under exactly this word, or none |
| `Trie.Trie.NothingBelow` | lib/cppjieba/Trie.hpp:104-111 | where a link is missing, no longer prefix has a node |
| `Trie.Trie.WordsFrom` | lib/cppjieba/Trie.hpp:93-116 | the walk, with both of its early exits, finds all edges at a rune |
| `Trie.Trie.FindDag` | lib/cppjieba/Trie.hpp:81-118 | the word graph of a range is, rune by rune, the edges that the dictionary defines |
| `Trie.CreateTrie` | lib/cppjieba/Trie.hpp:146-155 | looking a word up gives the last of the units with that word |
| `Trie.LastUnitIs` | lib/cppjieba/Trie.hpp:146-155 | the unit a word has is the one of its last place in the list, and none if and only if it is not there |
| `Trie.EdgesAscend` | lib/cppjieba/Trie.hpp:93-116 | the edges at a rune are in order of length, so the first of equal ones is the shortest word |
| `MPSegment.CalcDP` | lib/cppjieba/MPSegment.hpp:80-108 | the reverse loop fills in, for every rune, the optimum of the recursive definition and the first edge that reaches it |
| `MPSegment.WeightIsBound` | lib/cppjieba/MPSegment.hpp:102-105 | the optimum at a rune is at least the value of each edge |
| `MPSegment.ChoiceGivesWeight` | lib/cppjieba/MPSegment.hpp:102-105 | above the floor the choice is the entry of the first of the edges whose value is the optimum |
| `MPSegment.SegmentationBounded` | lib/cppjieba/MPSegment.hpp:80-108 | no segmentation into dictionary words and single runes scores more than the table says |
| `MPSegment.ChoiceIsLegit` | lib/cppjieba/MPSegment.hpp:115-125 | what is chosen at a rune is a dictionary word of permitted length or the single rune, also when no edge beats the floor |
| `MPSegment.ChoiceKeepsScore` | lib/cppjieba/MPSegment.hpp:102-105 | when some segmentation from here scores above MIN_DOUBLE, following the choice gives up no score |
| `MPSegment.CutByDag` | lib/cppjieba/MPSegment.hpp:109-127 | the ranges pushed are the choices read from left to right: a segmentation of the text, whose score is the optimum if scores stay above MIN_DOUBLE |
| `MPSegment.Cut` | lib/cppjieba/MPSegment.hpp:55-66 | trie, table and cut together: the result covers the range and consists of dictionary words and single runes; if scores stay above MIN_DOUBLE no such segmentation scores higher, and of those that score the same the result is the one with the shorter words first |
| `MPSegment.LightEnough` | lib/cppjieba/MPSegment.hpp:80-108 | scores stay above MIN_DOUBLE whenever no word weighs less than the minimum weight and as many runes of that weight are above it, which a caller can check |
| `MPSegment.SegmentationIff` | lib/cppjieba/MPSegment.hpp:80-127 | what is compared: ranges one behind the other from the first rune to the last, each a single rune or a dictionary word of at most 512 runes |
| `MPSegment.ScoreIs` | lib/cppjieba/MPSegment.hpp:88-101 | a word adds its weight in the dictionary to the score, and a rune that is not there the minimum weight |
| `MPSegment.ChosenIsSooner` | lib/cppjieba/MPSegment.hpp:102-105 | of all segmentations that score as much as the choices, these have the shorter word where they first differ |
| `HMMSegment.FillCell` | lib/cppjieba/HMMSegment.hpp:152-165 | one cell of the table gets its recursive definition, and no other cell changes |
| `HMMSegment.UpToBounds` | lib/cppjieba/HMMSegment.hpp:157-164 | a cell is at least the score of coming from each tag |
| `HMMSegment.CellBoundsScore` | lib/cppjieba/HMMSegment.hpp:151-166 | with logarithms at most 0, a tag sequence that scores above MIN_DOUBLE scores at most its cell, clamped cells notwithstanding |
| `HMMSegment.CellIsScoreOfTrace` | lib/cppjieba/HMMSegment.hpp:168-181 | a cell above MIN_DOUBLE holds the score of the tags read back from it |
| `HMMSegment.StatusIsOptimal` | lib/cppjieba/HMMSegment.hpp:130-182 | if any tag sequence ending in E or S scores above MIN_DOUBLE, the one read back has the maximum score |
| `HMMSegment.Viterbi` | lib/cppjieba/HMMSegment.hpp:130-182 | the loops over the two arrays compute that sequence: one tag in 0..3 per rune, optimal among the sequences ending in E or S |
| `HMMSegment.Status` | lib/cppjieba/HMMSegment.hpp:168-181 | there is one tag per rune and the last is E or S |
| `HMMSegment.ReadBack` | lib/cppjieba/HMMSegment.hpp:177-181 | following the path array from the last column gives the traced tags, never reading the -1 of the first column as a tag |
| `HMMSegment.InternalCut` | lib/cppjieba/HMMSegment.hpp:114-128 | the ranges cover the run, and by the tags that Viterbi returned each ends at an E or S and has no other inside; so a range is pushed at every E and S and at no other tag |
| `HMMSegment.RunCutCovers` | lib/cppjieba/HMMSegment.hpp:114-128 | the ranges of a run cover it, because its last tag ends a word |
| `HMMSegment.SequentialLetterRule` | lib/cppjieba/HMMSegment.hpp:79-95 | a letter and all letters and digits after it, or nothing |
| `HMMSegment.NumbersRule` | lib/cppjieba/HMMSegment.hpp:97-113 | a digit and all digits and points after it, or nothing |
| `HMMSegment.AsciiToken` | lib/cppjieba/HMMSegment.hpp:55-65 | the token at an ASCII rune: identifier, number, or the rune alone; never empty |
| `HMMSegment.Cut` | lib/cppjieba/HMMSegment.hpp:46-76 | the two-pointer loop gives the cut into ASCII tokens and runs of other runes that `StretchCutAsOne` and `AsciiEndIs` describe |
| `HMMSegment.WordsCover` | lib/cppjieba/HMMSegment.hpp:46-76 | that cut covers its range without gap or overlap |
| `HMMSegment.WordsUnmixed` | lib/cppjieba/HMMSegment.hpp:46-76 | every word is one whole ASCII token or has no ASCII rune in it |
| `HMMSegment.PathGivesWeight` | lib/cppjieba/HMMSegment.hpp:157-164 | above the floor the path entry is a tag from which the cell gets its score |
| `HMMSegment.BetterEnd` | lib/cppjieba/HMMSegment.hpp:168-175 | the better of E and S, E when they are equal |
| `HMMSegment.PathIsFirstBest` | lib/cppjieba/HMMSegment.hpp:150-165 | the path entry is the first of the best previous tags, and 1, for E, if none lifts the cell above MIN_DOUBLE |
| `HMMSegment.ScoreOfThree` | lib/cppjieba/HMMSegment.hpp:139-165 | the score that is optimal, on three runes: a start, and an emission for each and a transition between them |
| `HMMSegment.BreaksEndAtTags` | lib/cppjieba/HMMSegment.hpp:117-127 | each range ends at a rune tagged 1 or 3, and the other runes in it are tagged 0 or 2 |
| `HMMSegment.AsciiEndIs` | lib/cppjieba/HMMSegment.hpp:55-113 | the token at an ASCII rune is a letter with all letters and digits after it, a digit with all digits and points after it, or the rune alone |
| `HMMSegment.StretchCutAsOne` | lib/cppjieba/HMMSegment.hpp:46-76 | wherever it stands, a maximal stretch of runes that are not ASCII is tagged as one run, between what comes of the runes before it and of those behind |
| `MixSegment.MixSegment.FindRunEnd` | lib/cppjieba/MixSegment.hpp:66-69 | finds the end of the run: from i to there only single runes that are not listed, and none behind (`RunIsMaximal`) |
| `MixSegment.MixSegment.RecutRuns` | lib/cppjieba/MixSegment.hpp:56-85 | the index loop with its jumps keeps the kept words and cuts each block of unlisted single runes once, as one stretch (`BlockCutAsOne`) |
| `MixSegment.MixSegment.RecutCovers` | lib/cppjieba/MixSegment.hpp:56-85 | cutting runs anew covers what the first cut covered |
| `MixSegment.MixSegment.KeptWordsSurvive` | lib/cppjieba/MixSegment.hpp:59-63 | dictionary words of two or more runes and listed single runes are never cut again |
| `MixSegment.MixSegment.CutRange` | lib/cppjieba/MixSegment.hpp:46-86 | with the model on or off, what is appended is the best dictionary cut, of several the one with the shorter words first, or that cut with its blocks of unlisted runes cut anew, and covers the range |
| `MixSegment.MixSegment.AppendPiece` | lib/cppjieba/MixSegment.hpp:37-40 | pieces joined in order keep the cover, and no separator joins a longer word |
| `MixSegment.MixSegment.Cut` | lib/cppjieba/MixSegment.hpp:32-44 | for a decodable sentence the words are non-empty, consecutive and concatenate to the sentence exactly, each spelled by its runes and none hiding a separator; they are, piece by piece, a dictionary cut that no other outscores, cut again with the model if hmm is set; for any other sentence there are no words |
| `MixSegment.WordsIllegalIffUndecodable` | lib/cppjieba/KeywordExtractor.hpp:58-76 | adding up the word sizes reports illegal words exactly for sentences that do not decode |
| `MixSegment.MixSegment.RunIsMaximal` | lib/cppjieba/MixSegment.hpp:66-69 | from i to the end of the run each word is one rune that is not listed, and the word at the end is longer or listed, or there is none |
| `MixSegment.MixSegment.BlockCutAsOne` | lib/cppjieba/MixSegment.hpp:56-85 | every block of unlisted single runes between kept words or ends is cut by the model as one stretch, and its words stand between those of the words before and behind |
| `Md5.PaddingLength` | lib/cppjieba/limonp/Md5.hpp:292-295 | the padding of section 3.1 of RFC 1321 is 56 - index or 120 - index bytes, between 1 and 64 |
| `Md5.FoldAppend` | lib/cppjieba/limonp/Md5.hpp:266-272 | folding the transform over whole blocks can stop and go on at any block boundary |
| `Md5.CountAdvances` | lib/cppjieba/limonp/Md5.hpp:258-262 | adding the shifted length with a carry keeps the two words at 8 times the byte count modulo 2^64 |
| `Md5.MD5.AddBits` | lib/cppjieba/limonp/Md5.hpp:258-262 | the two count words after an update |
| `Md5.MD5.TransformBlocks` | lib/cppjieba/limonp/Md5.hpp:264-274 | the buffer is filled and transformed, then whole blocks straight from the input; the state is the fold over everything up to i |
| `Md5.MD5.Update` | lib/cppjieba/limonp/Md5.hpp:250-280 | for every chunk that with the bytes waiting in the buffer stays below 2^32: count, state and buffer then account for the message so far followed by the chunk |
| `Md5.MD5.LoopEndsIff` | lib/cppjieba/limonp/Md5.hpp:271-272 | where the last whole block ends, the wrapping guard of the loop is false if and only if chunk and waiting bytes stay below 2^32 |
| `Md5.MD5.Final` | lib/cppjieba/limonp/Md5.hpp:285-307 | the digest is the one of sections 3.1 to 3.5 of RFC 1321 for everything passed to Update, and the context is wiped |
| `Md5.SplitLittleEndian` | lib/cppjieba/limonp/Md5.hpp:289-290 | a 64-bit count in little-endian order is its low word followed by its high word |
| `Md5.EncodeCount` | lib/cppjieba/limonp/Md5.hpp:289-290 | the encoded count words are the length field of section 3.2 |
| `Md5.Encode` | lib/cppjieba/limonp/Md5.hpp:300-301 | words are stored low-order byte first |
| `Md5.EncodeState` | lib/cppjieba/limonp/Md5.hpp:300-301 | the encoded state is the output of section 3.5 |
| `Md5.DigestChunks` | lib/cppjieba/limonp/Md5.hpp:231-307 | however a message is cut into chunks within that bound, the digest is the one of the whole message |
| `Md5.PaddedInjective` | lib/cppjieba/limonp/Md5.hpp:292-298 | below 2^61 bytes, different messages are padded differently |
| `Md5.PaddedIs` | lib/cppjieba/limonp/Md5.hpp:285-298 | what is hashed: the message, a byte 0x80, zeros up to the next place that is 56 modulo 64, and the bit length modulo 2^64 in eight bytes, low-order byte first |
| `Md5.OutputIs` | lib/cppjieba/limonp/Md5.hpp:300-301 | the sixteen bytes of the digest are the four words, each low-order byte first |
| `Md5.OneBlock` | lib/cppjieba/limonp/Md5.hpp:266-272 | a block goes through the transform once |
| `Md5.EmptyDigest` | lib/cppjieba/limonp/Md5.hpp:231-307 | the digest of no bytes: the transform once, from the four words of section 3.3 of RFC 1321, on one block of padding |
| `Jenkins.MixBijective` | lib/simhash/jenkins.h:50-58 | mix has an inverse on triples of 32-bit words, on both sides |
| `Jenkins.FinalBijective` | lib/simhash/jenkins.h:60-69 | so has final |
| `Jenkins.XorUndoes` | lib/simhash/jenkins.h:48-69 | exclusive or, defined bit by bit, undoes itself |
| `Jenkins.WholeBlock` | lib/simhash/jenkins.h:138-145 | twelve bytes read as three words or as six half words are the same block |
| `Jenkins.WordFromMask` | lib/simhash/jenkins.h:158-172 | masking an over-read word leaves just the bytes of the key, padded with zeros |
| `Jenkins.Hash32` | lib/simhash/jenkins.h:131-190 | the aligned 32-bit path computes the byte-wise hash; it reads no further than the aligned word holding the last byte |
| `Jenkins.TailWord32` | lib/simhash/jenkins.h:158-172 | what the switch adds for one word of the last block |
| `Jenkins.Hash16` | lib/simhash/jenkins.h:191-233 | the aligned 16-bit path computes the same hash and reads nothing past the key |
| `Jenkins.TailWord16` | lib/simhash/jenkins.h:206-233 | the fall-through cases add the word one byte and one half word at a time |
| `Jenkins.HashBytes` | lib/simhash/jenkins.h:234-272 | the byte path computes the same hash |
| `Jenkins.TailBytes` | lib/simhash/jenkins.h:256-271 | the fall-through cases add the word byte by byte |
| `Jenkins.HashLittle2` | lib/simhash/jenkins.h:117-276 | for every address, key, length and seeds the pair is the one hash of the bytes of the key, with the values `FourScore` and `NoKey` give |
| `Jenkins.RotMovesBits` | lib/simhash/jenkins.h:48 | bit b of a rotation by k is bit (b + 32 - k) % 32 of the word: a rotation to the left |
| `Jenkins.XorIsBitwise` | lib/simhash/jenkins.h:48-69 | each bit of an exclusive or is set if and only if the two bits differ |
| `Jenkins.AddWraps` | lib/simhash/jenkins.h:50-69 | addition and subtraction are those of 32-bit words |
| `Jenkins.MixIs` | lib/simhash/jenkins.h:50-58 | mix is its eighteen assignments to a, b and c, one after the other |
| `Jenkins.FinalIs` | lib/simhash/jenkins.h:60-69 | and final its fourteen |
| `Jenkins.FourScore` | lib/simhash/jenkins.h:117-276 | "Four score and seven years ago" with seeds 0 hashes to 0x17770551 and 0xce7226e6 |
| `Jenkins.NoKey` | lib/simhash/jenkins.h:117-276 | the empty key hashes to 0xdeadbeef twice with seeds 0, to 0xbd5b7dde and 0xdeadbeef with the second seed 0xdeadbeef, and to 0x9c093ccd and 0xbd5b7dde with both |
| `StrPair.FindEntityIsFirst` | offline/tinyxml2.cc:329-340 | the first entity of the table whose name and a semicolon follow, and none if and only if there is no such entity |
| `StrPair.ConvertIsUtf8` | offline/tinyxml2.cc:403-453 | a code point of up to 21 bits becomes its UTF-8 form |
| `StrPair.CharacterRef` | offline/tinyxml2.cc:456-549 | what a reference writes is never longer than the reference |
| `StrPair.GetCharacterRef` | offline/tinyxml2.cc:456-549 | the backward loops over digits, in 32-bit and 64-bit arithmetic, give that reference or refuse it |
| `StrPair.StepAt` | offline/tinyxml2.cc:284-358 | one turn of the loop writes at most as many characters as it reads |
| `StrPair.RewriteDecodesIff` | offline/tinyxml2.cc:267-365 | from any point on, the in-place rewrite equals the recursive decode if and only if every skipped ampersand lands on an ampersand |
| `StrPair.InPlaceDecodesIff` | offline/tinyxml2.cc:267-365 | for every text: the rewrite is never longer than the text, and equals the recursive decode if and only if that condition holds |
| `StrPair.SkipGoesWrong` | offline/tinyxml2.cc:341-345 | a text on which it does not: behind a shortened entity, an ampersand that starts nothing is lost |
| `StrPair.TakeStep` | offline/tinyxml2.cc:284-358 | one turn in the buffer: what is written joins what was written, and the text not yet overwritten is as it was |
| `StrPair.Pass` | offline/tinyxml2.cc:280-361 | the whole pass over the buffer keeps the write pointer at or behind the read pointer and leaves the rewrite |
| `StrPair.GetStr` | offline/tinyxml2.cc:267-365 | the buffer then holds the rewritten text and a NUL, and nothing outside the text has changed |
| `StrPair.CString` | offline/tinyxml2.cc:267-365 | the characters before the first NUL, and all of them if there is none |
| `StrPair.NextStep` | offline/tinyxml2.cc:284-358 | the branch taken at the read pointer is the specified step |
| `Entities.PrintString` | offline/tinyxml2.cc:2494-2546 | writing runs and entities by pointer gives the character-by-character escape |
| `Entities.FindsEntity` | offline/tinyxml2.cc:329-340 | each of the five entities is found as itself |
| `Entities.DecodeEscape` | offline/tinyxml2.cc:267-365 | decoding what was escaped gives the string with its line ends normalised, skipping nothing |
| `Entities.RoundTripIff` | offline/tinyxml2.cc:2494-2546 | a string survives being written and read in place if and only if it has no carriage return |
| `Entities.NoSkipsNoHarm` | offline/tinyxml2.cc:267-365 | if every ampersand starts an entity or a reference, the condition for the rewrite to be the decode holds |
| `Entities.ReadsNumeral` | offline/tinyxml2.cc:456-549 | the backward loop adds up any decimal or hexadecimal number that fits in 32 bits |
| `Entities.ReferenceDecodes` | offline/tinyxml2.cc:456-549 | a decimal or hexadecimal reference to any code point is replaced by its UTF-8 bytes |
| `Entities.ReferenceAcceptedIff` | offline/tinyxml2.cc:456-549 | a reference is accepted if and only if it has a semicolon and only digits of its base stand between the last stop character and the first semicolon; it then writes what they add up to, which is their value below 2^32 and congruent to it modulo 2^32 beyond |
| `Entities.AddsUpTo` | offline/tinyxml2.cc:487-529 | the wrapping arithmetic gives the value of the digits below 2^32, and beyond it the remainder in base 16 and something congruent in base 10 |
| `Entities.WrittenRightIff` | offline/tinyxml2.cc:456-549 | an accepted reference writes the UTF-8 form of its number if and only if the number is below 2^32, or what the digits add up to has more than 21 bits, when nothing is written |
| `Entities.WrittenWrong` | offline/tinyxml2.cc:456-549 | &#x100000041; is accepted and writes an A |
| `Entities.ReadAsWrittenIff` | offline/tinyxml2.cc:456-549 | what is read is the whole numeral if and only if the stop character does not occur again after the prefix; numerals that are all digits are accepted and read whole |
| `Entities.AmountIsValue` | offline/tinyxml2.cc:487-529 | the wrapping arithmetic gives the value of the digits whenever that is below 2^32, whatever the number of leading zeros |
| `Entities.ReadFromTheLastX` | offline/tinyxml2.cc:456-549 | &#x12x34; is accepted and read as 34 in base 16 |
| `Entities.FiveEntities` | offline/tinyxml2.cc:127-132 | &amp;quot; &amp;amp; &amp;apos; &amp;lt; and &amp;gt; are read as their five characters, whatever follows |
| `Entities.SkippedIff` | offline/tinyxml2.cc:329-345 | of the ampersands that start no character reference, exactly those of these five start anything |
| `Entities.FiveEscapes` | offline/tinyxml2.cc:2494-2546 | the five characters are written as these five; in text the two quotes stay |
| `Entities.OthersStay` | offline/tinyxml2.cc:2494-2546 | any other character is written as it is |
| `Entities.LineEnds` | offline/tinyxml2.cc:284-311 | CR LF, LF CR and either alone are read as one line feed |
| `Entities.DigitIs` | offline/tinyxml2.cc:487-529 | the value of each digit in base 10 and 16, in either case of letters, and which characters are none |
| `XmlPrinter.XMLPrinter.SealElementIfJustOpened` | offline/tinyxml2.cc:2661-2668 | writes the held-back bracket exactly once |
| `XmlPrinter.XMLPrinter.OpenElement` | offline/tinyxml2.cc:2561-2579 | the tag begins after whatever was held back, and the name is remembered |
| `XmlPrinter.XMLPrinter.PushAttribute` | offline/tinyxml2.cc:2582-2590 | the attribute with its escaped value |
| `XmlPrinter.XMLPrinter.CloseElement` | offline/tinyxml2.cc:2633-2658 | an element with nothing in it closes itself, any other gets the end tag of the last name opened |
| `XmlPrinter.XMLPrinter.PushText` | offline/tinyxml2.cc:2671-2683 | escaped text, or a CDATA section as it is |
| `XmlPrinter.XMLPrinter.Accept` | offline/tinyxml2.cc:1966-1977 | visiting a tree with the stateful printer writes its compact form |
| `XmlPrinter.XMLPrinter.AcceptAll` | offline/tinyxml2.cc:726-737 | so does visiting all children in order |
| `XmlPrinter.XMLPrinter.Push` | offline/tinyxml2.cc:2733-2775 | header, value and tail after whatever was held back |
| `XmlPrinter.XMLPrinter.PushAttributes` | offline/tinyxml2.cc:2788-2801 | all attributes in order |
| `XmlParser.SkipsOnlySpace` | offline/tinyxml2.h:553-564 | what is skipped is all white space, and what remains is the rest of the text |
| `XmlParser.IndexOfIsFirst` | offline/tinyxml2.cc:193-215 | the first place where the end tag stands, and -1 if and only if it stands nowhere |
| `XmlParser.IdentifiedByMarkup` | offline/tinyxml2.cc:656-723 | which markup gives which kind, without regard to the order of the tests, and what is left to parse; a text gives its leading white space back |
| `XmlRoundTrip.NameIs` | offline/tinyxml2.cc:218-235 | a legal name is read whole and nothing more |
| `XmlRoundTrip.TagAfterValue` | offline/tinyxml2.cc:193-215 | an end tag cannot begin inside a value that does not contain it |
| `XmlRoundTrip.AttributeParses` | offline/tinyxml2.cc:1356-1382 | a printed attribute parses to itself, whatever follows |
| `XmlRoundTrip.AttributesParse` | offline/tinyxml2.cc:1815-1872 | so do printed attributes with distinct names, in order |
| `XmlRoundTrip.CommentParses` | offline/tinyxml2.cc:1212-1221 | a printed comment parses to itself |
| `XmlRoundTrip.DeclarationParses` | offline/tinyxml2.cc:1261-1270 | a printed declaration parses to itself |
| `XmlRoundTrip.CDataParses` | offline/tinyxml2.cc:1147-1155 | a printed CDATA section parses to itself |
| `XmlRoundTrip.UnknownParses` | offline/tinyxml2.cc:1309-1318 | a printed unknown parses to itself |
| `XmlRoundTrip.TextParses` | offline/tinyxml2.cc:1156-1170 | a printed text followed by markup parses to itself, leading and trailing space included |
| `XmlRoundTrip.StartTag` | offline/tinyxml2.cc:1898-1923 | a printed start tag is read as its name and attributes |
| `XmlRoundTrip.ClosingTagCloses` | offline/tinyxml2.cc:988-1100 | an end tag ends the list of siblings and names the parent |
| `XmlRoundTrip.ElementParses` | offline/tinyxml2.cc:1898-1923 | a printed element parses to itself at any depth that leaves room for its height |
| `XmlRoundTrip.NodesParse` | offline/tinyxml2.cc:988-1100 | printed siblings parse to themselves, in order |
| `XmlRoundTrip.DocumentRoundTrip` | offline/tinyxml2.cc:2380-2394 | parsing the compact print of a legal document gives the same trees back |
| `XmlRoundTrip.NodeParses` | offline/tinyxml2.cc:988-1100 | any printed legal node parses to itself |
| `XmlRoundTrip.ClosingTagParses` | offline/tinyxml2.cc:1906-1919 | an end tag is parsed as an element of closing type |
| `XmlDocument.ParseTag` | offline/tinyxml2.cc:1815-1872 | the attribute loop computes its recursive specification, including all its errors |
| `XmlDocument.AttributeParseDeep` | offline/tinyxml2.cc:1356-1382 | so does the parser of one attribute |
| `XmlDocument.ParseText` | offline/tinyxml2.cc:193-215 | the scanning loop finds the first end tag |
| `XmlDocument.XMLDocument.PushDepth` | offline/tinyxml2.cc:2396-2402 | counts the nesting and sets the error at the limit, whatever the error was before |
| `XmlDocument.XMLDocument.LeafParseDeep` | offline/tinyxml2.cc:1147-1170 | each kind of leaf is read, or its own error is set |
| `XmlDocument.XMLDocument.ElementParseDeep` | offline/tinyxml2.cc:1898-1923 | an element is read with its closing type, or a null pointer is returned with or without an error set |
| `XmlDocument.XMLDocument.Siblings` | offline/tinyxml2.cc:988-1100 | the loop over siblings returns the children and the parent's end tag, or sets the error of the specification |
| `XmlDocument.XMLDocument.NodesParseDeep` | offline/tinyxml2.cc:988-1100 | the depth is counted up and back down on every way out |
| `XmlDocument.XMLDocument.Parse` | offline/tinyxml2.cc:2285-2312 | the document ends with the specified children, or with the specified error and no children; `XmlInputs` says on written-out texts what is read and what refused |
| `XmlDocument.PrintAndParse` | offline/tinyxml2.cc:2285-2316 | printing a legal document with the printer and parsing it with the parser restores it |
| `XmlDocument.SkipSpace` | offline/tinyxml2.h:553-564 | the skipping loop computes its specification |
| `XmlDocument.ParseName` | offline/tinyxml2.cc:218-235 | the scanning loop reads the longest name, or none; `XmlInputs.NameReadIff` spells out which those are |
| `XmlDocument.Value` | offline/tinyxml2.cc:267-365 | what a string pair yields for its characters is their in-place rewrite up to the first NUL |
| `XmlDocument.FindAttribute` | offline/tinyxml2.cc:1515-1523 | found exactly if an attribute has the name |
| `XmlDocument.XMLDocument.ParseMarked` | offline/tinyxml2.cc:1212-1221 | a value up to its end tag, or the error of its kind |
| `XmlDocument.XMLDocument.NodeParseDeep` | offline/tinyxml2.cc:656-723 | each kind of markup goes to its own parser |
| `Dom.XMLNode.Unlink` | offline/tinyxml2.cc:804-825 | the pointers then link the list without the child, and the child stands alone |
| `Dom.XMLNode.LinkEnd` | offline/tinyxml2.cc:850-866 | the pointers then link the list with the node at its end |
| `Dom.XMLNode.LinkFirst` | offline/tinyxml2.cc:880-897 | the pointers then link the list with the node at its front |
| `Dom.XMLNode.LinkAfter` | offline/tinyxml2.cc:929-933 | the pointers then link the list with the node right after the given one |
| `Dom.Removed` | offline/tinyxml2.cc:804-825 | taking a node out of its parent's list keeps every node in at most one list, once, and lists and parents in agreement |
| `Dom.Added` | offline/tinyxml2.cc:841-868 | so does putting a node without a parent into a list |
| `Dom.RaisedRanks` | offline/tinyxml2.cc:841-868 | unless the place is below the node, no node becomes its own ancestor |
| `Dom.AfterDetaching` | offline/tinyxml2.cc:924-932 | once the node to insert has been taken out, the place still has a next sibling if and only if it had one other than just that node as the last |
| `Dom.XMLDocument.constructor` | offline/tinyxml2.cc:2006-2025 | an empty document with a pool of its own is valid |
| `Dom.XMLDocument.Relinked` | offline/tinyxml2.cc:804-935 | pointers set for one list leave all other lists linked |
| `Dom.XMLDocument.Unlink` | offline/tinyxml2.cc:804-825 | in the tree, one list loses one node and nothing else changes |
| `Dom.XMLDocument.MarkInUse` | offline/tinyxml2.cc:2034-2045 | the node is no longer in the list of unlinked nodes, and all others still are |
| `Dom.XMLDocument.SwapRemove` | offline/tinyxml2.h:281-286 | exactly the i-th element is gone |
| `Dom.XMLDocument.InsertChildPreamble` | offline/tinyxml2.cc:1117-1129 | the node is taken from its parent or from the list of unlinked nodes, and the tree is otherwise as it was |
| `Dom.XMLDocument.InsertEndChild` | offline/tinyxml2.cc:841-868 | the node is the last child, wherever it was before; the heap is a valid tree again, and the pool has lost and got nothing |
| `Dom.XMLDocument.InsertFirstChild` | offline/tinyxml2.cc:871-899 | the node is the first child |
| `Dom.XMLDocument.InsertAfterChild` | offline/tinyxml2.cc:902-935 | a place that is no child is refused, the node itself is left where it is, and any other node comes right after the place |
| `Dom.XMLDocument.WhatFollows` | offline/tinyxml2.cc:924-932 | after the preamble the pointer that the code follows is null if and only if the node to insert was all that followed the place |
| `Dom.XMLDocument.LastButOne` | offline/tinyxml2.cc:902-935 | there are valid documents in that case |
| `Dom.XMLDocument.NewNode` | offline/tinyxml2.h:1922-1933 | the node has an item of the pool to itself, is in the list of unlinked nodes and in no tree |
| `Dom.XMLDocument.DeleteChild` | offline/tinyxml2.cc:828-838 | the node and all that is below it are gone, and no other list changes |
| `Dom.XMLDocument.DeleteChildren` | offline/tinyxml2.cc:794-801 | the loop ends with no children; exactly what was below is gone |
| `Dom.XMLDocument.DestroyNode` | offline/tinyxml2.cc:1102-1115 | the recursion over destructors ends and gives the items of the node and of all that is below it back to the pool |
| `Dom.XMLDocument.DeleteNode` | offline/tinyxml2.cc:2149-2164 | linked or not, exactly the node and what is below it go |
| `Dom.OnlyRootLeft` | offline/tinyxml2.cc:2047-2057 | if no node but the document is without a parent and it has no children, there are no other nodes |
| `Dom.XMLDocument.Clear` | offline/tinyxml2.cc:2047-2057 | terminates with only the document left, nothing unlinked, and no item of the pool in use or untracked |
| `Dom.XMLDocument.BeginInsert` | offline/tinyxml2.cc:841-848 | the node in hand, the place as it is without it, and still not below the node |
| `Dom.XMLDocument.InsertBefore` | offline/tinyxml2.cc:928-934 | the node comes right after the place |
| `Dom.XMLDocument.TakeUp` | offline/tinyxml2.cc:2034-2045 | a node without a parent is in hand instead of in the list of unlinked nodes |
| `Dom.XMLDocument.Free` | offline/tinyxml2.h:400-411 | the node is in the tree's books no more |
| `MemPool.MemPoolT.NewBlock` | offline/tinyxml2.h:375-386 | a block of new items, linked in a list |
| `MemPool.MemPoolT.Alloc` | offline/tinyxml2.h:374-398 | an item that is not in use; it is then, and the counters say so |
| `MemPool.MemPoolT.Free` | offline/tinyxml2.h:400-411 | an item in use goes to the front of the free list |
| `BoundedQueue.BoundedQueue.Push` | lib/cppjieba/limonp/BoundedQueue.hpp:40-45 | the ring buffer's queue gets the element at its end |
| `BoundedQueue.BoundedQueue.Pop` | lib/cppjieba/limonp/BoundedQueue.hpp:47-53 | the oldest element leaves |
| `ThreadPool.WakeKeeps` | lib/cppjieba/limonp/BoundedBlockingQueue.hpp:18-26 | a notification wakes one sleeping worker if there is one |
| `ThreadPool.PushKeepsInv` | lib/cppjieba/limonp/BoundedBlockingQueue.hpp:18-26 | a push keeps the order of items, the count of closures run, the count of NULLs, and that no wakeup is lost |
| `ThreadPool.PopKeepsInv` | lib/cppjieba/limonp/BoundedBlockingQueue.hpp:28-37 | so does a pop |
| `ThreadPool.RunKeepsInv` | lib/cppjieba/limonp/ThreadPool.hpp:24-75 | every state of every interleaving satisfies the invariant, whoever adds when, and whether or not a notification caused a wakeup |
| `ThreadPool.StoppedIsDone` | lib/cppjieba/limonp/ThreadPool.hpp:60-69 | once all workers have exited, each has taken one NULL, no NULL is left, and every closure popped has run exactly as often as it was popped |
| `ThreadPool.NoDeadlock` | lib/cppjieba/limonp/ThreadPool.hpp:60-69 | once Stop has begun, some thread can move until all workers have exited, whatever Adds are in progress |
| `ThreadPool.NextMove` | lib/cppjieba/limonp/ThreadPool.hpp:60-69 | the workers and Stop can get there without waiting for any Add |
| `ThreadPool.NothingLeft` | lib/cppjieba/limonp/ThreadPool.hpp:60-69 | if no Add is in progress when Stop begins and none follows, the workers exit with the ring empty, everything popped in the order pushed, and every closure ever added run exactly as often as it was added |
| `ThreadPool.LeftBehind` | lib/cppjieba/limonp/ThreadPool.hpp:60-74 | the workers can exit with every Add in progress still waiting |
| `ThreadPool.StopRunsAllIff` | lib/cppjieba/limonp/ThreadPool.hpp:60-74 | Stop is sure to leave nothing behind if and only if no Add is in progress when it begins |
| `ThreadPool.Progress` | lib/cppjieba/limonp/ThreadPool.hpp:24-75 | every move brings the end nearer, and a wakeup without a cause puts it off by one move |
| `ThreadPool.StopTerminates` | lib/cppjieba/limonp/ThreadPool.hpp:60-69 | after Stop has begun a run is no longer than a bound fixed at that moment and two steps for each wakeup without a cause, and one that cannot go on has ended with all workers gone and everything popped run |
| `ThreadPool.InitInv` | lib/cppjieba/limonp/ThreadPool.hpp:44-58 | a pool with started workers satisfies the invariant |
| `ThreadPool.PushersKeepInv` | lib/cppjieba/limonp/BoundedBlockingQueue.hpp:18-23 | starting to add, waiting for room, and waking without a cause keep the invariant |
| `ThreadPool.WorkersKeepInv` | lib/cppjieba/limonp/ThreadPool.hpp:24-41 | running a closure, waiting for one, and waking without a cause keep the invariant |
| `EventLoop.CalledInQueueOrder` | net/EventLoop.cc:96-106 | in every interleaving the functors called so far are the first ones queued, in that order, each once |
| `EventLoop.StepKeepsInv` | net/EventLoop.cc:55-180 | every step keeps the order of functors, that no wakeup is lost, and that a quit that poll has to notice has one, but for one step: the loop's own thread queueing outside loop() while nothing is to wake it |
| `EventLoop.QuitEndsLoop` | net/EventLoop.cc:55-83 | a quit made after loop() has begun stays, and ends the loop at the next look at the condition |
| `EventLoop.StrandsIff` | net/EventLoop.cc:96-106 | a step leaves functors that nothing will wake the loop for if and only if it is that one |
| `EventLoop.RunStrandsIff` | net/EventLoop.cc:96-106 | a run strands functors so if and only if it has such a step |
| `EventLoop.PollDoesNotSleep` | net/EventLoop.cc:55-106 | in a run without such a step, whenever the loop is at poll with functors pending or a quit to notice, the eventfd is readable or some thread is between its push and its wakeup |
| `EventLoop.QueuedOutsideSleeps` | net/EventLoop.cc:55-106 | from any state outside loop(): queueing on the loop's own thread and calling loop() leads to a poll with the functor pending, which nothing wakes if and only if nothing was to wake it before |
| `EventLoop.TurnCallsAll` | net/EventLoop.cc:61-70 | everything queued before a poll returned has been called when the loop is next at its condition or in poll |
| `EventLoop.RunKeepsInv` | net/EventLoop.cc:55-180 | every state of every run without such a step satisfies the invariant |
| `EventLoop.TurnPromises` | net/EventLoop.cc:61-70 | from poll on, what was queued before it returned is called or will be in this turn |
| `FixedBuffers.FixedBuffer.Append` | base/FixedBuffer.h:17-24 | a line that fits with room to spare is copied behind the rest, any other is dropped whole |
| `FixedBuffers.FixedBuffer.Reset` | base/FixedBuffer.h:36 | the buffer is empty |
| `AsyncLogging.AsyncLogging.Append` | base/AsyncLogging.cc:26-47 | all the text is what it was followed by the line; which buffer is current then, and the spare buffer is used up only when a full one waits |
| `AsyncLogging.AsyncLogging.Swap` | base/AsyncLogging.cc:65-92 | the whole front end becomes the batch, which is not empty, and no text is lost |
| `AsyncLogging.AsyncLogging.Write` | base/AsyncLogging.cc:94-132 | the batch, or its first two buffers if it is too long, is written in order; both spare buffers are back and empty, and the asserts on the way hold; a batch cut down loses text if its full buffers are not empty |
| `AsyncLogging.React` | base/AsyncLogging.cc:26-133 | a line adds itself to the text; the other two events add and lose nothing unless a batch is too long, and then lose some of the lines; whether one will be follows from the state and the events |
| `AsyncLogging.Interleave` | base/AsyncLogging.cc:26-133 | in every interleaving, a batch is dropped if and only if, counting buffers from the start state through the events, one outgrows 25; if none does, written, batch, buffers and current buffer hold every line once and in order; and if all lines are shorter than a buffer, they hold them only then |
| `AsyncLogging.LoggedIs` | base/AsyncLogging.cc:26-133 | the text that events add: the lines below 4000000 characters, one behind the other |
| `Buffer.Buffer.Retrieve` | net/Buffer.h:68-79 | the first bytes go |
| `Buffer.Buffer.RetrieveAsBytes` | net/Buffer.h:125-131 | what is returned followed by what remains is what was readable |
| `Buffer.Buffer.MakeSpace` | net/Buffer.h:276-290 | growing or moving down leaves the readable bytes as they are; the assert at line 283 holds |
| `Buffer.Buffer.EnsureWritableBytes` | net/Buffer.h:150-157 | there is room, and the readable bytes are as they were |
| `Buffer.Buffer.Append` | net/Buffer.h:138-143 | the readable bytes are what they were followed by the data |
| `Buffer.Buffer.Unwrite` | net/Buffer.h:169-173 | the last bytes go |
| `Buffer.Buffer.Prepend` | net/Buffer.h:250-256 | the readable bytes are the data followed by what they were |
| `Buffer.Buffer.Shrink` | net/Buffer.h:258-264 | the readable bytes are as they were, with the reserve behind them |
| `Buffer.Buffer.ReadFd` | net/Buffer.cc:10-34 | the bytes read are appended in order, across the buffer and the area on the stack; a failure leaves the buffer as it was and reports its number |
| `Buffer.Buffer.constructor` | net/Buffer.h:15-23 | an empty buffer with the initial room |
| `Buffer.Buffer.RetrieveAll` | net/Buffer.h:114-118 | nothing is readable |
| `Buffer.Buffer.HasWritten` | net/Buffer.h:163-167 | the bytes written behind the readable ones are readable |
| `Buffer.Buffer.Swap` | net/Buffer.h:25-30 | two buffers exchange everything |
| `TcpConnection.TcpConnection.SendInLoop` | net/TcpConnection.cc:73-102 | what the socket took and what waits is what it was followed by the message |
| `TcpConnection.TcpConnection.HandleWrite` | net/TcpConnection.cc:150-179 | what was taken leaves the front of the buffer; writing stops, and a waiting shutdown happens, exactly when nothing is left |
| `TcpConnection.TcpConnection.ShutdownWrite` | net/TcpConnection.cc:104-111 | until the connection is closed, both call sites reach it only with everything sent |
| `TcpConnection.TcpConnection.ShutdownInLoop` | net/TcpConnection.cc:104-111 | shuts the socket down now unless bytes wait |
| `TcpConnection.TcpConnection.HandleClose` | net/TcpConnection.cc:181-190 | the channel wants nothing any more; nothing is lost from the account |
| `TcpConnection.React` | net/TcpConnection.cc:35-190 | a message adds itself to what was taken and what waits; no other event adds or loses anything |
| `TcpConnection.Serve` | net/TcpConnection.cc:35-190 | for every sequence of events and every behaviour of the socket, bytes taken followed by bytes waiting are all messages in order |
| `TcpConnection.TcpConnection.ConnectEstablished` | net/TcpConnection.cc:114-121 | the connection is up and reads |
| `TcpConnection.TcpConnection.Shutdown` | net/TcpConnection.cc:46-53 | a connection that is up begins to disconnect |
| `TcpConnection.TcpConnection.ForceCloseInLoop` | net/TcpConnection.cc:64-71 | closes unless that has been done |
| `TcpConnection.TcpConnection.ConnectDestroyed` | net/TcpConnection.cc:123-133 | a connection still up is closed and its channel wants nothing |
| `TimerQueue.HowMuchTimeFromNow` | net/TimerQueue.cc:20-30 | the delay in seconds and nanoseconds, at least 100 microseconds |
| `TimerQueue.AddTime` | base/Timestamp.h:63-67 | what is added is the seconds in microseconds, cut off towards zero: of their sign, no more than them, and less than one microsecond short |
| `TimerQueue.Timer.Restart` | net/Timer.h:23-29 | a repeating timer expires an interval after now |
| `TimerQueue.TimerQueue.SetTimerfd` | net/TimerQueue.cc:43-55 | the timerfd fires at the expiration, or 100 microseconds from now if that is later |
| `TimerQueue.TimerQueue.ReadTimerfd` | net/TimerQueue.cc:32-41 | a timerfd that has fired is disarmed, one that was armed anew meanwhile stays armed |
| `TimerQueue.TimerQueue.Insert` | net/TimerQueue.cc:142-155 | the timer is in the queue, in order of expiration; the result says whether it is first |
| `TimerQueue.TimerQueue.AddTimer` | net/TimerQueue.cc:76-91 | a timerfd armed in time for the earliest timer still is |
| `TimerQueue.TimerQueue.GetExpired` | net/TimerQueue.cc:106-115 | exactly the timers due at now leave, in order |
| `TimerQueue.TimerQueue.Reset` | net/TimerQueue.cc:117-140 | the repeating ones come back restarted, the others do not, and the timerfd is armed in time |
| `TimerQueue.TimerQueue.HandleRead` | net/TimerQueue.cc:93-104 | exactly the timers due have run, once and in order; one-shots are gone, repeating ones restarted, the others and one new timer for each that the callbacks add, in order, are there, and the timerfd is armed in time |
| `TimerQueue.TimerQueue.RunTimer` | net/TimerQueue.cc:99-102 | a callback has run, and one new timer for each it adds, in order, is in the queue with its expiration and interval |
| `TimerQueue.TimerQueue.RunAll` | net/TimerQueue.cc:99-102 | all expired timers have run once, in order; one new timer for each they add, in order, is there, and an overdue first timer has the timerfd armed |
| `TimerQueue.TimerQueue.Renew` | net/TimerQueue.cc:120-131 | a repeating timer goes back restarted, a one-shot does not |
| `TimerQueue.TimerQueue.Rearm` | net/TimerQueue.cc:132-139 | the timerfd is armed in time for the earliest timer |
| `Cache.Cache.AddElement` | process/Cache.cc:19-41 | the list is the move-to-front of the old one, bounded by the capacity, and the map has exactly its words with their nodes |
| `Cache.Cache.Copy` | process/Cache.cc:9-17 | the copy has the same words in the same order with the same results |
| `Cache.Cache.Get` | process/Cache.cc:81-89 | the result of a word in the list, and "-1" for any other |
| `Cache.RecentIsByRecency` | process/Cache.cc:19-41 | moving to the front without a bound lists the words used by their last use |
| `Cache.LeastRecentlyUsedGoes` | process/Cache.cc:19-41 | after any uses a cache holds the most recently used words, as many as fit, latest first |
| `Cache.UnlinkIsCut` | process/Cache.cc:36-39 | splicing takes exactly the given node out of the list |
| `Cache.TouchIsPrefix` | process/Cache.cc:19-41 | using a word commutes with cutting the list to the capacity |
| `Cache.LastUseIs` | process/Cache.cc:19-41 | the last use of a word is the last place it has among the uses, -1 if none |
| `MyCache.MyCache.Write` | process/MyCache.cc:10-18 | the node joins the queue |
| `MyCache.MyCache.Look` | process/MyCache.cc:20-26 | the first critical section of a read: the answer of the current replica, which some write gave that word but for final newlines |
| `MyCache.MyCache.Answer` | process/MyCache.cc:27-31 | the second, at any later time: a hit is written again, a miss is not |
| `MyCache.MyCache.ApplyNext` | process/MyCache.cc:45-48 | the next node of the batch, word and result, reaches the replica that readers do not see |
| `MyCache.MyCache.Save` | process/MyCache.cc:50 | the results in that replica lose a final newline, those in the other stay, and so do the words and their order |
| `MyCache.MyCache.SwapReplicas` | process/MyCache.cc:52-55 | readers now see the replica that has the whole batch |
| `MyCache.MyCache.Finish` | process/MyCache.cc:57-62 | both replicas have had the batch, words and results, once and in the same order |
| `MyCache.MyCache.Step` | process/MyCache.cc:33-64 | every statement of the background thread keeps the invariant and leads to the next one |
| `MyCache.MyCache.ReplicasAgree` | process/MyCache.cc:36-63 | at each loop head both replicas hold the same words in the same order: the most recently used of those written, but for what still waits; their results differ in final newlines at most |
| `MyCache.MyCache.ReadersSeeAPrefix` | process/MyCache.cc:20-31 | at any moment the current replica holds the most recently used words of some prefix of the writes, with the results held after those |
| `MyCache.HeldSince` | process/Cache.cc:19-41 | the result held under a word is that of the write at which the word was last not in use |
| `MyCache.MyCache.TakeList` | process/MyCache.cc:38-43 | the background thread has the queue as its batch, and the queue is empty |
| `MyCache.StrippedIs` | process/MyCache.cc:50 | a result loses one newline at its end, and nothing else |
| `InvertedIndex.PageLibPreprocessor.GetIndexTable` | offline/WebPage.cc:76-82 | the table then indexes one page more |
| `InvertedIndex.PageLibPreprocessor.Compute` | offline/WebPage.cc:84-108 | every word of the page has then the share of its raw weight in all raw weights of the page; no entry appears or goes, no other page's weight changes |
| `InvertedIndex.PageLibPreprocessor.WordWeights` | offline/WebPage.cc:86-92 | the raw weights: the count of each word in the page times a function of the number of pages and of those with the word |
| `InvertedIndex.PageLibPreprocessor.BuildInvertIndexTable` | offline/PageLibPreprocessor.cc:103-132 | the ids under each word are exactly the pages that have it, each with the weight defined on the pages alone |
| `InvertedIndex.SetIntersection` | process/WordQuery.cc:205-207 | the elements common to two sorted lists, sorted |
| `InvertedIndex.ScanFinds` | process/WordQuery.cc:193-211 | a scan finds exactly the pages that have every one of the words, ascending |
| `InvertedIndex.DocsAreScan` | process/WordQuery.cc:193-211 | an ascending list of the ids under all the words is that scan |
| `InvertedIndex.GetDocs` | process/WordQuery.cc:193-211 | for a non-empty list of indexed words: the pages a scan would find, and each of them is under each word |
| `InvertedIndex.Weigh` | process/WordQuery.cc:143-152 | every lookup of the scoring loop hits, and gives the weight of that word in that page |
| `InvertedIndex.DoQuery` | process/WordQuery.cc:107-152 | for every query: no answer if and only if it has words and a scan finds nothing, the read of the first of no words if and only if it has none, and otherwise the pages of the scan in order, each with the weights in the table |
| `InvertedIndex.UnknownWord` | process/WordQuery.cc:125-135 | a word that is not in the table is in no page, so returning early agrees with the scan |
| `InvertedIndex.BuildAndQuery` | process/WordQuery.cc:107-152 | from the pages to the answer, for every query: the outcome of a scan, with the weights defined on the pages alone |
| `InvertedIndex.SortedKeys` | process/WordQuery.cc:196-198 | the keys of a map, ascending |
| `InvertedIndex.PageLibPreprocessor.Entry` | offline/WebPage.cc:80 | looking a word up in the table puts it there |
| `InvertedIndex.RawWeightsIs` | offline/WebPage.cc:86-92 | a raw weight: the count of the word in the page, times idf of the number of pages and the number of those that have the word |
| `XmlInputs.NameReadIff` | offline/tinyxml2.h:577-592 | an empty element with this name is read as such if and only if the name starts with a letter, a colon, an underscore or a byte from 128 up, and has besides only digits, points and hyphens |
| `XmlInputs.BetweenTagsIff` | offline/tinyxml2.cc:656-665 | what stands between a start and an end tag is dropped if and only if it is all space, tab, line feed, VT, FF or CR; other characters are text |
| `XmlInputs.InTagIff` | offline/tinyxml2.cc:1815-1850 | what stands between a name and an attribute, if it has no slash, no closing bracket and no character of a name, is passed over if and only if it is white space, at least one character of it |
| `XmlInputs.EndTagMatchesIff` | offline/tinyxml2.cc:1072-1091 | an element is read if and only if its end tag has its name; otherwise the error is MISMATCHED_ELEMENT |
| `XmlInputs.EndTagMissing` | offline/tinyxml2.cc:1072-1091 | so it is if there is no end tag |
| `XmlInputs.AttributeReads` | offline/tinyxml2.cc:1356-1382 | name, equals sign with any white space around it, and a value in quotes of either kind, decoded with entities and line ends |
| `XmlInputs.AttributeReadsOnly` | offline/tinyxml2.cc:1356-1382 | and only this is read as an attribute |
| `XmlInputs.ValuesOfMarkup` | offline/tinyxml2.cc:1212-1340 | the values of comments, CDATA sections, declarations and unknowns reach to their first end tag, with nothing decoded but line ends |
| `XmlInputs.RawStep` | offline/tinyxml2.cc:284-311 | there an ampersand stands for itself, and line ends become line feeds |
| `XmlInputs.StartsAtMarkup` | offline/tinyxml2.cc:2380-2393 | white space and a byte order mark before the first markup change nothing |
| `XmlInputs.EmptyDocument` | offline/tinyxml2.cc:2380-2393 | a text of white space, with or without the mark, is the error EMPTY_DOCUMENT |
| `XmlInputs.DeclarationBehind` | offline/tinyxml2.cc:1035-1061 | a declaration behind any other node is the error PARSING_DECLARATION |
| `XmlInputs.DeclarationInside` | offline/tinyxml2.cc:1035-1061 | so is one inside an element |
| `XmlInputs.DuplicateRefused` | offline/tinyxml2.cc:1836-1840 | an attribute whose name is there already is the error PARSING_ATTRIBUTE |
| `XmlInputs.Unclosed` | offline/tinyxml2.cc:1147-1340 | markup whose end tag stands nowhere is the error of its kind |
| `XmlInputs.DepthLimit` | offline/tinyxml2.cc:2396-2402 | the hundredth level of nesting is the error ELEMENT_DEPTH_EXCEEDED, and no other level is |
| `XmlInputs.PrintsAs` | offline/tinyxml2.cc:2561-2683 | how elements, attributes, texts, CDATA sections, comments, declarations and unknowns are written |

## Left out

- Md5.MD5.Update: the 64-step block transform (lib/cppjieba/limonp/Md5.hpp:119-227) is a parameter; the model proves which blocks it is given, in which order, not what it does to one.
- Unicode.DecodeRunesInString: sentences of 4 GiB and more, on which the 32-bit offsets would wrap.
- MPSegment.Cut: floating-point rounding; scores are real numbers, and optimality is stated for texts on which some segmentation from each rune on scores above MIN_DOUBLE, as `LightEnough` gives for all but absurd weights.
- HMMSegment.Viterbi: floating-point rounding; optimality assumes logarithms of probabilities and one tag sequence above MIN_DOUBLE.
- Trie.CreateTrie: deleting the trie, and the vectors of keys and units given separately; loading dictionaries and models from files, user dictionary lines and computing weights.
- MixSegment.MixSegment.Cut: the reduced interfaces that return strings only, the word taggers, and the segmenters FullSegment and QuerySegment.
- StrPair.GetStr: collapsing of white space, and strings owned by the pair rather than by the document's buffer.
- XmlDocument.XMLDocument.Parse: the parser works on the text from its position on, not in one shared buffer that the end of each string overwrites; line numbers, error strings, collapsing of white space, the option to leave entities alone, clearing the pools after an error, and files are not modelled.
- XmlDocument.PrintAndParse: parsed trees are values here and linked nodes in `Dom`; that the parser builds the linked tree by inserting each node at the end is not repeated.
- XmlPrinter.XMLPrinter.Accept: the indented form, writing to a file, and values that are not strings.
- XmlRoundTrip.DocumentRoundTrip: speaks of documents whose first and last top-level node is not a text, because the parser skips or refuses the outer white space of such a text.
- Dom.XMLDocument.InsertEndChild: values, attributes and user data of nodes, nodes of several documents, cloning and copying of documents, the document node itself as a child, and handles.
- Dom.XMLDocument.Clear: one pool stands for the four; attributes are not pooled. A node and the item it is put in are two objects.
- MemPool.MemPoolT.Alloc: blocks are never given back in the model; clearing a pool drops them all.
- Jenkins.HashLittle2: big-endian machines and the variant of the tail for a memory checker; the bitwise or in a rotation is written as a sum of two parts that have no bit in common.
- ThreadPool.StopTerminates: how many wakeups come without a cause, exceptions thrown by closures, and what closures do. Calls of Add and Stop after Stop has begun are not steps of these runs; those of `RunKeepsInv` have them, but a second Stop, as the destructor makes after the first, finds no threads and does nothing, and is left out.
- EventLoop.PollDoesNotSleep: channels other than the one of the eventfd, and the call of a functor on the loop's own thread without queueing it.
- AsyncLogging.Interleave: buffers are modelled by their contents, as each has one owner at a time; the wait with its timeout, starting and stopping the thread, and rolling of the log file are not modelled. A batch over the limit loses its buffers from the third on, as `Write` states.
- TcpConnection.Serve: reading, the callbacks, reference counts and the socket's own state; a message sent after the connection was closed is still accounted for, but nothing is promised about its delivery.
- Buffer.Buffer.ReadFd: what readv does is a parameter: it fails, or reads some bytes, no more than the two areas hold.
- TimerQueue.TimerQueue.HandleRead: the order of timers with equal expirations, which the source takes from their addresses, is the order of insertion here; wall clock and monotonic clock are one clock, and it is positive.
- Cache.Cache.Copy: that the copy has nodes of its own; reading a cache from a file, which may fill it beyond its capacity.
- MyCache.MyCache.Look: a stored result equal to "-1" counts as a miss, as in the source; when the background thread wakes, and that it runs at all, is up to the caller of `Step`.
- InvertedIndex.DoQuery: starts at the words of a query that is not empty and not in the cache; it stops before ranking and rendering the pages found.
- InvertedIndex.PageLibPreprocessor.Compute: the logarithm in a weight and the division by the root of the sum of squares are parameters, on reals, so rounding and a division by zero are not modelled; nor are ranking, summaries, answers in JSON, removal of duplicate pages, and storing and loading the table.
- Sockets, epoll, the acceptor, threads and locks, the configuration, the JSON library, simhash voting, TextRank and the number and date utilities are not part of this model.
