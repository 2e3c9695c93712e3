# MiniSearchRec: verified model of its caches, hashes, text and HTTP codecs, and schedulers

This Dafny project models the parts of MiniSearchRec that carry protocol, state or arithmetic, and proves what they
promise. `dafny verify dfyconfig.toml` checks the whole project.

| files | what they model |
|---|---|
| `LruSpec`, `LruCache`, `LruTraces`, `LruAnswers` | the TTL + LRU cache: linked nodes and key map updated in place, their meaning as a recency sequence, and properties of whole traces |
| `CacheSpec`, `CacheAnswers`, `CacheManager` | the two-level manager with the in-memory Redis store: last write, bounded staleness, what each level answers, counters |
| `Words`, `Crc32`, `Murmur`, `HashRange` | CRC-32, MurmurHash3, the mapping of hashes to buckets |
| `Utf8`, `Tokenizer` | UTF-8 length, truncation and CJK detection; the tokenizer |
| `HttpText`, `HeaderFields`, `HeaderSpelling`, `UrlCodec`, `QueryString` | splitting and trimming, header lines in any spelling, percent encoding, query strings |
| `MultipartSpec`, `MultipartLines`, `MultipartHeaders`, `MultipartParser`, `MultipartRoundTrip`, `MultipartTrail`, `MultipartSplits`, `MultipartInputs` | multipart/form-data: serializer, incremental parser over a sliding buffer, when the round trip succeeds for which split |
| `SocketStream`, `Chunked`, `ChunkGrammar`, `ChunkedStreams` | the buffered socket reader, the line reader, reads of known length, chunked transfer in both directions |
| `Ranges` | the Range header, `range_error`, multipart/byteranges bodies and their length |
| `PathParams` | route patterns with parameters |
| `ThreadPool` | the HTTP server's thread pool as a transition system with condition-variable sleep and wakeups |
| `Scheduler` | Start, Stop and Loop as a transition system with a clock |
| `Wrappers`, `Sequences`, `StateMachine` | optional values, facts about sequences, runs of a transition system |

Code that updates objects is modelled by classes whose methods refine functions on abstract values; the theorems are
about those functions, over all inputs and all runs. A character of a string stands for a byte. Concurrent code is a
set of steps; every theorem about it is over every finite sequence of steps from the initial state.

Where the code and a reader's expectation part, the model follows the code and says exactly when:

- A pair that is repeated in the parameters is printed twice and parsed once, and keys are printed unquoted. The
  parameters come back if and only if no pair repeats and no key is empty, starts with a blank, or has an ampersand, an
  equals sign, a plus sign or a readable escape in it (`QueryString.RoundTripIff`).
- A content that holds the delimiter is cut there, and a first piece that does not hold the whole first delimiter line
  is dropped; for names, types and boundaries the format allows, the items come back in all other cases and only in
  those (`MultipartSplits.RoundTripIff`).
- The names of a multipart item are written as they are: its header lines give it back if and only if neither name has
  a semicolon, an equals sign or a line end in it and the content type has no blanks around it
  (`MultipartHeaders.HeadersReadBackIff`).
- A suffix range longer than the content is refused, where section 14.1.2 of RFC 9110 selects the whole content
  (`Ranges.SuffixAccepted`).
- The path matcher accepts one more separator after a last parameter (`PathParams.MatchIff`), and compares fixed text
  only up to a NUL: a path that is not of the pattern's form matches if and only if some fixed text of the pattern has a
  NUL before its last character (`PathParams.MatchesOnlyFittingIff`, `PathParams.NulHidesTheRest`).
- A job accepted while the pool shuts down is lost exactly when the last worker had left its loop by then
  (`ThreadPool.AcceptedJobFinishesIff`, `ThreadPool.AllFinishedIff`, `ThreadPool.LateJobIsLost`).
- The notification of `Scheduler::Stop` is missed exactly when the worker is about to park at that moment, which delays
  Stop by at most the worker's wake interval (`Scheduler.NotificationMissedIff`, `Scheduler.StopReturns`).
- Trailer values are printed as they are and read percent-decoded, unless the field is a Location. The trailer comes
  back if and only if every field has a name without a colon, a value without blanks around it, and no readable escape
  in that value unless its name is Location (`Chunked.TrailerIntactIff`, `Chunked.EscapeIsDecoded`).
- The staleness of a value is bounded by the sum of both levels' ttls, and that bound is reached
  (`CacheSpec.StalenessIsReached`).

## Model

| member | source | states |
|---|---|---|
| LruCache.LRUCache.Get | src/cache/lru_cache.h:22-38 | On the linked nodes and the key map, `Get` answers the entry's value unless it is missing or expired, moves a hit to the front, drops an expired entry, and keeps list and map linked one to one |
| LruCache.LRUCache.Put | src/cache/lru_cache.h:41-67 | `Put` leaves the given entry in front, overwrites an old entry of the key without evicting, and otherwise evicts until there is room; the size bound holds and every key maps to exactly its own node |
| LruCache.LRUCache.Delete | src/cache/lru_cache.h:69-76 | `Delete` reports whether the key was there and removes its node and nothing else |
| LruCache.LRUCache.Clear | src/cache/lru_cache.h:78-82 | List and map are both empty afterwards |
| LruCache.LRUCache.Size | src/cache/lru_cache.h:84-87 | The map's size is the number of entries in the list and at most the capacity |
| LruCache.LRUCache.EvictExpired | src/cache/lru_cache.h:90-105 | The sweep removes exactly the expired entries, keeps the order of the others, and counts the removed ones |
| LruCache.LRUCache.EvictOneLocked | src/cache/lru_cache.h:116-130 | The backward scan refines eviction on the recency sequence: one entry goes when there is any |
| LruCache.LRUCache.constructor | src/cache/lru_cache.h:19 | A new cache of any capacity is empty and linked |
| LruCache.LRUCache.EraseNode | src/cache/lru_cache.h:30-31 | Erasing through a node reference removes the entry of its key from list and map together |
| LruCache.LRUCache.MoveToFront | src/cache/lru_cache.h:36 | Splicing through a node reference makes it the most recent and keeps the order of the others |
| LruTraces.EvictionChoice | src/cache/lru_cache.h:116-130 | The victim is the least recent expired entry, or the least recent entry when none is expired |
| LruTraces.RunKeepsKeys | src/cache/lru_cache.h:22-130 | After every trace the keys are distinct and the size is at most the capacity |
| LruTraces.StackInclusion | src/cache/lru_cache.h:22-130 | On one trace with one clock the smaller cache's recency list is at every point a subsequence (key, value and expiry) of the larger one's, which has at least as much free room |
| LruTraces.SmallHitsAreLargeHits | src/cache/lru_cache.h:22-38 | Every hit of the smaller cache is the same hit in the larger one |
| LruTraces.IncludedAfter | src/cache/lru_cache.h:22-130 | One operation of any kind keeps the inclusion, whatever either cache has to evict |
| LruTraces.Survival | src/cache/lru_cache.h:41-67 | An entry that was just used, does not expire and is neither deleted nor overwritten stays until at least capacity other keys have been touched |
| LruTraces.UsedKeySurvives | src/cache/lru_cache.h:22-130 | In every trace a key that was put, or hit by a Get, answers with that value while it is not deleted, overwritten or expired and fewer than capacity other keys have been touched since |
| LruAnswers.GetIs | src/cache/lru_cache.h:22-38 | By position: a hit moves to the front and the others keep their order, an expired entry goes, a missing key changes nothing |
| LruAnswers.PutIs | src/cache/lru_cache.h:41-67 | By position: the new entry, with the expiry of its own ttl, stands in front of the others; an old one of its key is gone, and while there is room nothing else is |
| LruAnswers.SweepIs | src/cache/lru_cache.h:90-105 | The sweep keeps exactly the entries without an expiry or before it, in their order |
| LruAnswers.EntriesAreLastPuts | src/cache/lru_cache.h:22-130 | In every trace each entry is what the last operation that named its key has put |
| LruAnswers.PutAnswers | src/cache/lru_cache.h:22-67 | A put is answered with its value for ttl seconds, and for ever with a ttl of 0 or less, while nothing names its key and fewer than capacity other keys are touched; behind that time it is never answered |
| LruAnswers.NothingPut | src/cache/lru_cache.h:22-82 | A key that was not put since it was deleted, or since the last clear, or at all, is not answered |
| CacheManager.InMemoryRedisClient.Set | src/cache/redis_client.cpp:38-48 | A connected store holds the value afterwards; a positive ttl sets the expiry and any other leaves the old expiry in place |
| CacheManager.InMemoryRedisClient.Get | src/cache/redis_client.cpp:50-70 | Lazy expiry: an entry past its expiry is removed with the expiry and not returned |
| CacheManager.InMemoryRedisClient.Del | src/cache/redis_client.cpp:72-78 | Value and expiry of the key both go |
| CacheManager.CacheManager.constructor | src/cache/cache_manager.cpp:14-17 | A manager starts with an empty first level, no store and zero counters |
| CacheManager.CacheManager.Initialize | src/cache/cache_manager.cpp:19-45 | The first level is emptied, the capacity never changes, and a configuration without a store keeps an earlier connection |
| CacheManager.CacheManager.Get | src/cache/cache_manager.cpp:50-74 | The method on the two caches and the counters refines the two-level lookup: first level, then the store with a fresh local ttl on backfill, then a miss |
| CacheManager.CacheManager.Set | src/cache/cache_manager.cpp:76-87 | Both levels receive the value, each with its own default ttl |
| CacheManager.CacheManager.Delete | src/cache/cache_manager.cpp:89-95 | Both levels lose the key; the result speaks of the first level alone |
| CacheManager.CacheManager.Clear | src/cache/cache_manager.cpp:138-142 | Only the first level is emptied |
| CacheSpec.RunKeepsInv | src/cache/cache_manager.cpp:50-95 | In every sequential run each entry of the first level comes from the last write and expires by its deadline, and the store holds each last write until its own deadline and nothing else |
| CacheSpec.LastWriteWithinBounds | src/cache/cache_manager.cpp:50-95 | `Get` returns only the value of the latest `Set` with no `Delete` since, and only until set time + l2 ttl + local ttl; with a store it does return it until set time + l2 ttl, whatever was evicted or cleared |
| CacheSpec.StalenessIsReached | src/cache/cache_manager.cpp:50-74 | The bound is exact: after `Set`, `Clear` and a `Get` at the last moment of the store, the value is still returned at the deadline |
| CacheSpec.StatsCountGets | src/cache/cache_manager.cpp:50-74 | l1_hits + l2_hits + misses is the number of Gets |
| CacheAnswers.SetAnswers | src/cache/cache_manager.cpp:50-87 | With a store or without one, a value that was set is answered by the first level alone, and counted as its hit, for the ttl that was passed or else the local one, while nothing removes or overwrites it and fewer than capacity other keys are touched |
| CacheAnswers.FrontAnswers | src/cache/cache_manager.cpp:50-74 | The same for whatever entry the last call has left in front, until that entry expires |
| CacheAnswers.AnsweredIsInFront | src/cache/cache_manager.cpp:50-74 | A Get that is answered leaves its value in front, with the local ttl from then on when the store had it |
| CacheAnswers.SetExpiresAlone | src/cache/cache_manager.cpp:50-87 | Without a store, behind that ttl the value is not answered any more, and no other value is until the key is set again |
| CacheAnswers.SetAnswersWithStore | src/cache/cache_manager.cpp:50-95 | With a store, a value that was set is answered for the ttl that was passed or else the store's, whatever happens to the first level, and not behind that time by more than the local ttl |
| CacheAnswers.NothingSet | src/cache/cache_manager.cpp:50-95 | A key that was not set since it was deleted, or at all, is not answered |
| CacheAnswers.AnswersAreCounted | src/cache/cache_manager.cpp:50-74 | The hits are the Gets that are answered, the misses the others, and without a store no hit is one of the second level |
| CacheAnswers.ClearedIsAnsweredByStore | src/cache/cache_manager.cpp:50-74 | Behind a Clear an answer is counted as a hit of the second level |
| CacheAnswers.StoreReadsBack | src/cache/redis_client.cpp:38-70 | The store gives a value back for its positive ttl; without one the expiry an earlier set has left decides |
| CacheAnswers.StaleIsForgotten | src/cache/redis_client.cpp:50-70 | A read behind the expiry forgets value and expiry; an earlier one changes nothing |
| Crc32.Table.Init | src/utils/hash_utils.cpp:193-208 | The table loops fill every entry with the eight-fold reflected shift of its index, once |
| Crc32.Table.Hash | src/utils/hash_utils.cpp:210-218 | The table-driven CRC-32 of every byte string is the bit-by-bit reflected division by 0xEDB88320 of its bits, least significant first, started and ended with all ones (section 8 of RFC 1952) |
| Crc32.LookupIsEightDivisions | src/utils/hash_utils.cpp:213-216 | One table step is eight steps of the bit-by-bit division |
| Crc32.BurstDetected | src/utils/hash_utils.cpp:210-218 | Two messages that differ only in a window of at most 32 bits have different checksums |
| Crc32.WindowDetected | src/utils/hash_utils.cpp:210-218 | Two byte strings of one length that differ only inside four consecutive bytes have different checksums |
| Crc32.ByteChecksum | src/utils/hash_utils.cpp:193-218 | The checksum of the byte 0x7F is the published one |
| Murmur.MurmurHash3 | src/utils/hash_utils.cpp:13-57 | The loops over blocks and tail compute the hash as a fold of the block mix, the tail mix and the finalizer; a length of 2^32 or more wraps, and only the bytes the wrapped length covers are read |
| Murmur.TailWordIsXor | src/utils/hash_utils.cpp:36-42 | The fall-through of xor-ed shifted tail bytes is their little-endian number |
| Murmur.MixBlockInjective | src/utils/hash_utils.cpp:24-34 | Mixing a block is a bijection of the state for a fixed block and of the block for a fixed state |
| Murmur.FinishInjective | src/utils/hash_utils.cpp:49-54 | The finalizer is a bijection: xor-shifts and odd multiplications lose nothing |
| Murmur.BlockNeverCollides | src/utils/hash_utils.cpp:13-57 | Two keys of one length and seed that differ only in one aligned 4-byte block never collide |
| Murmur.TailNeverCollides | src/utils/hash_utils.cpp:13-57 | Two keys that differ only in the last one to three bytes never collide |
| Murmur.SeedNeverCollides | src/utils/hash_utils.cpp:13-57 | One key never has the same hash under two seeds |
| Murmur.EmptyHash | src/utils/hash_utils.cpp:13-57 | The hash of the empty key with the seed 1 is the published one |
| Murmur.HellBlock | src/utils/hash_utils.cpp:19-34 | What the block "hell" makes of the state 0 |
| Murmur.ZeroHash | src/utils/hash_utils.cpp:13-57 | The length takes part: a zero byte with the seed 1 hashes to 0 |
| HashRange.BucketIsInterval | src/utils/hash_utils.cpp:230-233 | The hashes of a bucket are exactly an interval between two ceilings of multiples of 2^32 / range |
| HashRange.Balanced | src/utils/hash_utils.cpp:230-233 | Every bucket below range receives the floor or the ceiling of 2^32 / range hashes |
| HashRange.GrowByOne | src/utils/hash_utils.cpp:230-233 | Growing range by one moves every hash by 0 or +1 |
| HashRange.MonotoneInHash | src/utils/hash_utils.cpp:230-233 | A larger hash never has a smaller bucket |
| HashRange.LargestHashIsMaximum | src/utils/hash_utils.cpp:236-246 | The hash `ConsistentHash` keeps is the largest of its virtual keys, or 0 without any |
| HashRange.ConsistentHash | src/utils/hash_utils.cpp:236-246 | The loop over virtual nodes returns the bucket of the largest virtual hash, below range when range is positive |
| HashRange.ConsistentHashMoves | src/utils/hash_utils.cpp:236-246 | More virtual nodes never lower the bucket, and growing range by one moves it by 0 or +1 |
| HashRange.VirtualHashIs | src/utils/hash_utils.cpp:236-246 | The hash of a virtual node is that of the key, a # and the node's number in decimal, with the seed 0 |
| Utf8.Utf8Len | src/utils/string_utils.cpp:238-249 | The index loop counts the lead bytes it steps over, on any bytes |
| Utf8.ContainsChinese | src/utils/string_utils.cpp:140-163 | The index loop finds a three-byte character in 0x4E00-0x9FFF among those it steps over, on any bytes |
| Utf8.Utf8Truncate | src/utils/string_utils.cpp:225-236 | The backward loop cuts at the last byte at or before the limit that continues no character |
| Utf8.CountIsLength | src/utils/string_utils.cpp:238-249 | On text built by `to_utf8` from valid code points the length is the number of code points |
| Utf8.ChineseIffCodePoint | src/utils/string_utils.cpp:140-163 | On such text the test holds exactly when a code point lies in 0x4E00-0x9FFF |
| Utf8.TruncateKeepsWhole | src/utils/string_utils.cpp:225-236 | On such text the cut is the encoding of the longest prefix of code points that fits |
| Utf8.CharacterShape | deps/httplib.h:2438-2468 | The first byte of what `to_utf8` writes for a valid code point announces its length and all others are continuation bytes |
| Utf8.BytesHoldCode | deps/httplib.h:2438-2468 | The bytes `to_utf8` writes hold the bits of the code in the shortest form; surrogates and codes beyond the last plane are written as nothing |
| Utf8.CountIs | src/utils/string_utils.cpp:238-249 | On any bytes, the first character of the width its lead byte gives counts one, a cut one too |
| Utf8.ChineseIs | src/utils/string_utils.cpp:140-163 | On any bytes, a whole three-byte character in 0x4E00-0x9FFF is found, or the search goes on behind the first character |
| Utf8.TruncatedIs | src/utils/string_utils.cpp:225-236 | On any bytes, a text that is too long is cut at the last place up to the limit that holds no continuation byte |
| Tokenizer.Tokenize | src/utils/string_utils.cpp:74-138 | The loop splits any bytes into words of ASCII letters, digits and apostrophes and whole longer characters |
| Tokenizer.RetokenizeIsFixpoint | src/utils/string_utils.cpp:74-138 | For every byte string, tokenizing its tokens joined by single spaces gives the same tokens |
| Tokenizer.TokensKeepText | src/utils/string_utils.cpp:74-138 | On valid UTF-8 the tokens put together are the text without its ASCII separators |
| Tokenizer.FrontTokens | src/utils/string_utils.cpp:74-138 | A longest run of ASCII letters, digits and apostrophes is a token; behind it a whole longer character is one, and any other byte is dropped |
| UrlCodec.EncodeQueryParam | deps/httplib.h:2556-2575 | The stream loop escapes each byte by itself, byte by byte |
| UrlCodec.FromHexToI | deps/httplib.h:2411-2426 | Exactly cnt hexadecimal digits are read, or the call fails, as it always does from the end of the text on |
| UrlCodec.DecodeUrl | deps/httplib.h:2609-2644 | The index loop refines decoding from the front: %uXXXX, %XX, plus signs, and everything else as it is |
| UrlCodec.UrlDecode | src/utils/string_utils.cpp:165-184 | The repository's own decoder, with the blanks and signs its stream extraction lets through |
| UrlCodec.DecodeEncode | deps/httplib.h:2556-2644 | `decode_url` and `UrlDecode` both invert `encode_query_param` on all byte strings (section 2.1 of RFC 3986) |
| UrlCodec.DecodeSameIff | deps/httplib.h:2609-2644 | `decode_url` gives a text back as it is if and only if no %uXXXX or %XX with hexadecimal digits starts anywhere in it and, where plus signs are converted, it has none; otherwise the text gets lighter |
| UrlCodec.EncodeAlphabet | deps/httplib.h:2562-2571 | Encoded text holds only unreserved characters and percent signs and is empty only for the empty text |
| UrlCodec.EncodesByte | deps/httplib.h:2562-2571 | Letters, digits and -_.!~*'() stay; any other byte becomes % and two upper-case digits |
| UrlCodec.DecodesByte | deps/httplib.h:2609-2644 | % and two digits in either case stand for the byte |
| UrlCodec.DecodesCode | deps/httplib.h:2609-2644 | %u and four digits stand for the UTF-8 of the code |
| UrlCodec.DecodesOther | deps/httplib.h:2609-2644 | Where no escape starts a character stands for itself, or a plus sign for a blank where that is asked for |
| UrlCodec.EscapeIff | deps/httplib.h:2609-2644 | Where an escape starts, in hexadecimal digits |
| UrlCodec.StreamIs | src/utils/string_utils.cpp:165-184 | What the stream extraction reads when the second character is a digit: two digits, or one behind a blank or a sign |
| UrlCodec.StreamOfOne | src/utils/string_utils.cpp:165-184 | What it reads when the second is none: a first digit, unless the two are 0x, or nothing |
| UrlCodec.UrlDecodesIs | src/utils/string_utils.cpp:165-184 | The repository's decoder character by character |
| HttpText.Split | deps/httplib.h:2713-2733 | The split loop hands over the trimmed non-blank pieces between separators, in order, for every separator, a blank one too |
| HttpText.TrimCopy | deps/httplib.h:2675-2678 | The copy is the text without outer blanks, also when it is all blank |
| HttpText.TrimBounds | deps/httplib.h:2664-2673 | The pair of bounds of any piece, which may run past its end and below its start, still is its trimmed text |
| HeaderSpelling.TrimExactly | deps/httplib.h:2662-2678 | Trimming drops blanks and tabs on both sides and nothing else |
| HttpText.TokensBoth | deps/httplib.h:2713-2733 | The tokens of a text around a separator are those in front of it and those behind it |
| QueryString.ParamsToQueryStr | deps/httplib.h:4419-4429 | The printer joins key=value pairs with & in order |
| QueryString.ParseQueryText | deps/httplib.h:4431-4452 | The parser refines adding each distinct piece to the multimap, equal keys in order of arrival |
| QueryString.ParsePrinted | deps/httplib.h:4419-4452 | Parsing what was printed gives the parameters with repeated pairs dropped and the order among equal keys kept |
| QueryString.RoundTripIffNoRepeats | deps/httplib.h:4419-4452 | With keys that survive unquoted, parsing what was printed gives the parameters back if and only if no (key, value) pair is repeated |
| QueryString.RoundTripIff | deps/httplib.h:4419-4452 | For every multimap of parameters, whatever its keys, parsing what was printed gives it back if and only if no pair is repeated and every key survives unquoted |
| QueryString.PlainPieceAdds | deps/httplib.h:4431-4452 | A piece without an equals sign adds its decoded text with an empty value |
| QueryString.PairPieceAdds | deps/httplib.h:4431-4452 | A piece with one is divided at the first: in front of it the key, behind it the value, equals signs included; without a key it adds nothing |
| QueryString.PiecesAdd | deps/httplib.h:4431-4452 | Pieces are added one after the other, of equal ones only the first |
| QueryString.EmplaceIs | deps/httplib.h:4440-4450 | A pair is added behind those with a smaller or the same key and in front of the others |
| QueryString.LessIs | deps/httplib.h:4440-4450 | Keys are ordered lexicographically |
| MultipartParser.MultipartFormDataParser.Parse | deps/httplib.h:4556-4691 | `parse` on the sliding buffer refines the step function on unread text, callbacks included, and terminates |
| MultipartParser.MultipartFormDataParser.BufAppend | deps/httplib.h:4762-4778 | Moving the unread text to the front in place and writing behind it appends to the unread text |
| MultipartParser.MultipartFormDataParser.BufFind | deps/httplib.h:4739-4760 | The search by first character returns the first occurrence in the unread text, or its length |
| MultipartParser.MultipartFormDataParser.StartWith | deps/httplib.h:4720-4727 | The character loop decides whether the text stands at a place of the buffer before its end |
| MultipartParser.MultipartFormDataParser.ReadHeaders | deps/httplib.h:4577-4644 | The loop over header lines refines the header loop, until the empty line, a refusal or the end of the text |
| MultipartParser.MultipartFormDataParser.ReadBody | deps/httplib.h:4647-4669 | Content is handed over up to the delimiter, or up to where one could still begin |
| MultipartLines.SerializeMultipartFormdata | deps/httplib.h:4865-4878 | The loop over the items appends every part in order and, if asked, the closing delimiter: the serialized body the round trip is about |
| HeaderFields.ParseHeader | deps/httplib.h:3908-3943 | The scanning loops accept exactly the lines with a name, a colon and a value that is not blank, and hand over the name and the value, decoded unless it is a Location |
| HeaderFields.FieldReadsBackIff | deps/httplib.h:3908-3943 | For every name and value, the printed field is read back as it was if and only if the name is not empty and has no colon, the value is not empty and has no blanks around it, and decoding would not change it or the field is a Location |
| HeaderFields.FieldReadsBack | deps/httplib.h:3908-3943 | A printed field is read back with its name and its value, decoded |
| HeaderSpelling.LocationIsKept | deps/httplib.h:3900-3943 | A value is decoded unless the field's name spells Location in any case |
| HeaderSpelling.BlanksAreDropped | deps/httplib.h:3908-3943 | Blanks and tabs around the value change nothing |
| HeaderSpelling.NoField | deps/httplib.h:3908-3943 | Without a colon, without a name or with blanks alone behind the colon a line is no field |
| MultipartLines.ParseDispositionParams | deps/httplib.h:4469-4491 | The nested splits give each distinct piece's key and last value, unquoted, in order |
| MultipartLines.HandleLine | deps/httplib.h:4591-4640 | One header line changes the file being read as its meaning says, and is refused exactly when that refuses it |
| HeaderSpelling.TypeLineIs | deps/httplib.h:4591-4617 | A content type is read whatever the case of the field's name, without the blanks around it; a blank one is refused |
| HeaderSpelling.DispositionIs | deps/httplib.h:4591-4617 | The parameters of a disposition are found whatever the case of its words and the spaces between them, and not when a line end is among them |
| HeaderSpelling.DispositionReads | deps/httplib.h:4591-4640 | A name is required, a file name is optional, and the decoded text behind UTF-8'' in any case takes its place; an extended name that is not spelled so is refused |
| HeaderSpelling.ParamAdds | deps/httplib.h:4470-4491 | A parameter with blanks around it adds its key and its value without quotes, unless one is spelled as it before |
| HeaderSpelling.QuotesAre | deps/httplib.h:2680-2685 | Quotes are dropped when there is one on either side |
| HeaderSpelling.LookupIff | deps/httplib.h:4617-4635 | Of equal keys the first parameter is taken |
| HeaderSpelling.OtherLines | deps/httplib.h:4591-4640 | Any other header line is skipped, and what is no header line is refused |
| MultipartHeaders.HeadersReadBackIff | deps/httplib.h:4591-4640 | For every part, the header lines the serializer writes give its name, filename and content type back if and only if the names have no semicolon, no equals sign and no line end and the content type has no blanks around it |
| MultipartHeaders.HeadersReadBack | deps/httplib.h:4591-4640 | The header lines the serializer writes for a part give its name, filename and content type back |
| MultipartRoundTrip.SerializedShape | deps/httplib.h:4835-4878 | The serialized body is a delimiter line followed by entries that each end in the delimiter of the next |
| MultipartRoundTrip.ContentStep | deps/httplib.h:4647-4669 | One round in a content delivers all of it and finds its delimiter, or delivers a part and keeps enough to find it later |
| MultipartRoundTrip.ToLastDelimiter | deps/httplib.h:4556-4691 | Fed with any pieces of a serialized body, the parser gets to the closing delimiter with every item delivered |
| MultipartRoundTrip.RoundTrip | deps/httplib.h:4556-4691 | Any split of a serialized body whose first piece holds the first delimiter line is parsed into exactly its items, in order, and ends valid (section 5.1.1 of RFC 2046) |
| MultipartRoundTrip.DelimiterCutsContent | deps/httplib.h:4647-4669 | When some content holds the delimiter, no split gives the items back |
| MultipartRoundTrip.RoundTripIffNoDelimiter | deps/httplib.h:4556-4691 | For any split, the items come back if and only if no content holds CRLF, two dashes and the boundary |
| MultipartRoundTrip.ShortFirstPieceIsLost | deps/httplib.h:4563-4568 | A first piece shorter than the delimiter line is dropped whole |
| MultipartTrail.ResumeTrack | deps/httplib.h:4556-4691 | From any entry of any body on, however it is cut, the collected contents stand in the body in order, each behind an empty line, with a delimiter and the next header between them |
| MultipartSplits.StartsBefore | deps/httplib.h:4556-4691 | If the collected contents are those of the items, each began no later in the serialized body than the serializer put it |
| MultipartSplits.ShortOpeningFails | deps/httplib.h:4563-4568 | When the first piece that is not empty is shorter than the delimiter line, no way to cut the rest gives the items back |
| MultipartSplits.RoundTripIff | deps/httplib.h:4556-4691 | However a serialized body is cut, its items come back, in order and valid, if and only if no content holds the delimiter and the first piece that is not empty holds the whole first delimiter line |
| MultipartInputs.CallbacksDecide | deps/httplib.h:4556-4691 | In every parse a refused callback is the last one made, the parse fails and the parser is invalid; a parse that succeeds has had every call accepted |
| MultipartInputs.BadLineFails | deps/httplib.h:4578-4640 | A first header line of more than 8192 bytes, or one that is not understood, makes the parse fail |
| MultipartInputs.StuckBehindDelimiter | deps/httplib.h:4672-4689 | Behind a delimiter that neither a line end nor two dashes follow the parser keeps its input and waits |
| MultipartInputs.SerializedText | deps/httplib.h:4811-4880 | The text that is written for an item and behind the last one |
| SocketStream.SocketStream.Read | deps/httplib.h:5625-5669 | For any size and any results of recv, the bytes received are those returned, in order, followed by the unread buffer |
| SocketStream.StreamLineReader.Append | deps/httplib.h:2787-2798 | The line grows by one character across the switch from the fixed to the growable buffer |
| SocketStream.StreamLineReader.Getline | deps/httplib.h:2761-2785 | The line is exactly the bytes through the next newline, or all there are, and nothing else is consumed |
| SocketStream.ReadContentWithLength | deps/httplib.h:3984-4004 | On success exactly len bytes have been delivered at contiguous offsets; on a healthy socket, with callbacks that go on, it fails only when fewer are left |
| ChunkedStreams.FromIToHex | deps/httplib.h:2428-2436 | The do-while loop prints the hexadecimal digits without leading zeros |
| ChunkedStreams.WriteData | deps/httplib.h:4187-4195 | Short writes are repeated until all is sent, in order |
| ChunkedStreams.DataSink.Write | deps/httplib.h:4287-4312 | A non-empty write is emitted as one chunk, an empty one ends the data without a chunk |
| ChunkedStreams.DataSink.Done | deps/httplib.h:4316-4358 | The last chunk and the trailer fields are emitted once and the data ends |
| ChunkedStreams.WriteContentChunked | deps/httplib.h:4278-4381 | The provider loop emits what the provider does, call by call, until it says done, and fails when the provider does; when it succeeds, all of that was sent, on any stream |
| ChunkedStreams.ProvidedIs | deps/httplib.h:4340-4381 | The provider is called until it returns false or its last action is neither a write of some data nor missing |
| ChunkedStreams.ReadTrailer | deps/httplib.h:4066-4082 | The loop over trailer lines reads what the grammar of the trailer says and collects the headers the lines hold, or fails |
| ChunkedStreams.ReadContentChunked | deps/httplib.h:4032-4085 | The reader delivers exactly the content the chunk grammar gives the unread bytes, collects the trailer's headers, leaves the rest unread, and on a healthy socket fails only where the grammar does |
| ChunkedStreams.SendAndReceive | deps/httplib.h:4032-4381 | A writer with short writes joined to a reader with short reads delivers the written texts, concatenated, and the trailer fields, with their values decoded, and leaves what follows unread; the fields are those that were written if and only if each can come back |
| Chunked.SizeLineReads | deps/httplib.h:4046-4049 | `strtoul` reads back the size line `from_i_to_hex` prints, for every size below ULONG_MAX |
| Chunked.DecodeChunk | deps/httplib.h:4053-4061 | A chunk decodes to its data followed by whatever follows decodes to |
| Chunked.DecodeFields | deps/httplib.h:4066-4082 | Trailer lines within the length limit are read back in order up to the blank line |
| Chunked.TrailerReadsBack | deps/httplib.h:4066-4082 | The headers collected from the printed trailer are its fields, in order, with their values decoded |
| Chunked.TrailerIntactIff | deps/httplib.h:4066-4082 | For every trailer, the headers collected from its printed lines are the trailer itself if and only if each field has a name without a colon, a value without blanks around it, and nothing in the value that is decoded unless the field is a Location |
| Chunked.EscapeIsDecoded | deps/httplib.h:4066-4082 | The field X with the value %41 is read back with the value A |
| Chunked.RoundTrip | deps/httplib.h:4032-4381 | Decoding what non-empty writes and `done` emit gives their concatenation, the trailer and exactly the bytes that follow (section 7.1 of RFC 9112) |
| Chunked.UnfinishedIsRefused | deps/httplib.h:4032-4085 | Without a call of `done` the emitted bytes are always refused |
| Chunked.ToHexIs | deps/httplib.h:2428-2436 | Sizes are printed with lower-case digits and without leading zeros |
| Chunked.EmittedText | deps/httplib.h:4288-4365 | What is sent for a write and for done with and without a trailer |
| ChunkGrammar.DecodeIff | deps/httplib.h:4032-4082 | Exactly the texts of chunks with their sizes, a size 0, trailer lines of at most 8192 bytes and an empty line are decoded: to the data, the lines and what follows |
| ChunkGrammar.SizeIs | deps/httplib.h:4046-4049 | A size is read as `strtoul` reads it: behind spaces, a sign and 0x, too large a number as the largest, and negated by a minus sign |
| ChunkGrammar.NoSize | deps/httplib.h:4046-4049 | Without a digit there is no size |
| ChunkGrammar.ChunkSizeIs | deps/httplib.h:4046-4051 | The largest size is refused, which stands for all that do not fit, and a NUL ends the line |
| ChunkGrammar.TrailerLinesAre | deps/httplib.h:4066-4082 | The last two characters of a trailer line are dropped, whatever they are, and what is no field is skipped |
| Ranges.ParseRangeHeader | deps/httplib.h:4496-4542 | The split callback refines reading every range, and the header is refused as soon as one is malformed, too large or there is none |
| Ranges.MakeRangeHeader | deps/httplib.h:5396-5408 | The loop prints the ranges in order, separated by a comma and a blank |
| Ranges.ParseMade | deps/httplib.h:5396-5408 | Parsing what `make_range_header` prints gives the ranges back |
| Ranges.ParseIff | deps/httplib.h:4494-4545 | A header is read as the ranges its comma-separated tokens spell, and refused when one of them spells none |
| Ranges.RangeField | deps/httplib.h:4494-4545 | The text of an open range and a suffix |
| Ranges.Request.RangeError | deps/httplib.h:4880-4933 | In a 2xx response with ranges the answer is an error if and only if the resolved ranges are too many, leave the content, do not ascend or overlap more than twice; the ranges are resolved in place, up to the first refused one |
| Ranges.Request.Check | deps/httplib.h:4882-4929 | The loop with its running maxima and counter decides exactly that condition |
| Ranges.AcceptedTotal | deps/httplib.h:4880-4933 | Accepted ranges select at most three times the content in all (section 14.2 of RFC 9110) |
| Ranges.SuffixAccepted | deps/httplib.h:4905-4916 | A suffix range, at any place of the list, falls inside the content if and only if it asks for at least one byte and no more than the content; any other makes the whole request be refused |
| Ranges.AcceptableIff | deps/httplib.h:4874-4925 | Accepted are at most 1024 ranges inside the content that start one behind the other, of which at most two start before the end of an earlier one |
| Ranges.SelectsIs | deps/httplib.h:4896-4910 | A range from f on selects f to the end, a suffix of n the last n positions, and f to l just these |
| Ranges.SelectedBytes | deps/httplib.h:4896-4910 | The bytes an accepted range selects |
| Ranges.MakeMultipartRangesData | deps/httplib.h:4959-5010 | The body is the parts of the ranges, in order, and the closing delimiter; accepted ranges satisfy the asserted bounds |
| Ranges.PartText | deps/httplib.h:4940-4990 | The text of a part |
| Ranges.GetMultipartRangesDataLength | deps/httplib.h:5012-5028 | The computed length is the length of the body actually produced, for every content of that length |
| PathParams.Construct | deps/httplib.h:5724-5767 | The constructor's loop cuts the pattern into fixed texts and names, and refuses it if and only if a name comes twice |
| PathParams.MatchPath | deps/httplib.h:5769-5806 | The matching loop accepts exactly what the matcher's meaning accepts and maps every name to its value |
| PathParams.MatchIff | deps/httplib.h:5724-5806 | A path matches with given separator-free values if and only if it is the pattern with the values put in, up to one separator at its end when the pattern ends with a parameter; the only-if part is for patterns with no NUL before the last character of a fixed text |
| PathParams.MatchesOnlyFittingIff | deps/httplib.h:5769-5806 | Only paths of that form match, for all paths and separator-free values, if and only if no fixed text of the pattern has a NUL before its last character |
| PathParams.NulHidesTheRest | deps/httplib.h:5769-5806 | The pattern a, NUL, b is matched by the path a, NUL, c |
| PathParams.SubstitutedFits | deps/httplib.h:5724-5767 | Putting the values into the pattern gives a path of that form |
| PathParams.RoundTrip | deps/httplib.h:5724-5806 | The path made from a pattern and any values without a separator matches and gives exactly those values back |
| PathParams.CutIs | deps/httplib.h:5724-5767 | A colon begins a parameter, whose name ends at a slash or at the end of the pattern |
| PathParams.SubstitutedIs | deps/httplib.h:5724-5767 | What the substitution is, in characters |
| ThreadPool.RunKeepsInv | deps/httplib.h:679-743 | Over every interleaving: first in first out, conservation, bounded queue, workers leave in time, joined threads are gone, and no wakeup is lost |
| ThreadPool.StepWakes | deps/httplib.h:679-729 | While a worker sleeps, at least as many wakeups are under way as jobs wait, although notify_one comes after the mutex is released |
| ThreadPool.Accounted | deps/httplib.h:679-729 | Accepted jobs are the queued, the running and the finished ones, each once; they start in the order of acceptance; the queue never exceeds a positive limit |
| ThreadPool.EnqueueIs | deps/httplib.h:679-692 | A job is refused exactly when there is a limit and as many jobs wait as it allows, and an accepted one waits behind the others |
| ThreadPool.JobsBeforeShutdownFinish | deps/httplib.h:679-743 | With at least one worker, when shutdown returns every job accepted before it was called has finished, and without later enqueues all accepted jobs have |
| ThreadPool.JobFinishesIff | deps/httplib.h:679-743 | By the return of shutdown a job has been started and has finished if and only if some worker had not left its loop at the moment it was accepted |
| ThreadPool.AcceptedJobFinishesIff | deps/httplib.h:679-743 | The same for a job accepted at any point of any run |
| ThreadPool.AllFinishedIff | deps/httplib.h:679-743 | When shutdown returns, all accepted jobs have finished if and only if none was accepted after the last worker had left |
| ThreadPool.LateJobIsLost | deps/httplib.h:679-743 | A run in which a job accepted during shutdown is never started |
| ThreadPool.NothingStartsWithoutWorkers | deps/httplib.h:679-729 | When all workers are gone nothing starts any more and the queue only grows |
| ThreadPool.RunsDown | deps/httplib.h:679-743 | Left alone, the pool makes a bounded number of steps |
| ThreadPool.QuietMeansDone | deps/httplib.h:679-743 | The pool never gets stuck: at rest, shutdown has returned if it was called, and otherwise every accepted job has finished |
| ThreadPool.ShutdownReturns | deps/httplib.h:696-709 | After the call of shutdown every run without enqueues is bounded and can only end with shutdown returned |
| Scheduler.ComputeWake | src/scheduler/scheduler.cpp:119-127 | The loop over the tasks computes the wake interval |
| Scheduler.WakeBounds | src/scheduler/scheduler.cpp:119-127 | The wake interval lies in 10..60 seconds, is no longer than any enabled task's interval of at least 10, and comes from such a task or a bound |
| Scheduler.WakeIs | src/scheduler/scheduler.cpp:119-127 | The wake interval is 60 exactly when no enabled task asks for less, 10 exactly when one asks for at most that, and otherwise the shortest interval of the enabled tasks |
| Scheduler.RunKeepsInv | src/scheduler/scheduler.cpp:93-144 | Over every interleaving of the caller with the worker threads the invariant on threads, flags, passes and waits holds |
| Scheduler.AtMostOneWorker | src/scheduler/scheduler.cpp:93-117 | At most one worker is alive, none between the return of Stop and the next Start, and Start never assigns over a thread that was not joined |
| Scheduler.PassesRunEnabledTasks | src/scheduler/scheduler.cpp:131-143 | A pass begins at least its wake interval after every earlier one, and that interval is the one its tasks ask for; it runs the enabled tasks in registration order, each at most once and all of them unless Stop cut it short or it is under way |
| Scheduler.EnabledBelowIs | src/scheduler/scheduler.cpp:138-142 | The tasks of a pass ascend and are exactly the enabled ones below where it got to |
| Scheduler.AtMostOneLateTask | src/scheduler/scheduler.cpp:104-117 | Between a call of Stop and the next Start at most one CheckAndRun begins |
| Scheduler.NothingRunsStopped | src/scheduler/scheduler.cpp:104-117 | Between the return of Stop and the next Start nothing begins and no worker comes to life |
| Scheduler.StopReturns | src/scheduler/scheduler.cpp:104-117 | While Stop has not returned, worker and caller make at most seven steps besides the clock's, and if neither can move, the worker is parked for no longer than its wake interval, which is at most 60 seconds |
| Scheduler.NotificationMissedIff | src/scheduler/scheduler.cpp:103-136 | Stop's notification, sent without the mutex, is missed, so that a worker parks after it, if and only if a worker was about to park at that moment |
| Scheduler.NotificationCanBeMissed | src/scheduler/scheduler.cpp:103-136 | That moment is reached by a run from the start |

## Left out

- LruCache.LRUCache.Put: asks for a capacity of at least 1, because with capacity 0 its loop never ends; time is one reading of a clock per operation and operations are atomic; the mutexes and the two readings `Put` may take are not modelled.
- CacheManager.InMemoryRedisClient.Set: the manager's theorems assume positive configured ttls, because a set with ttl <= 0 keeps an older expiry; the hash, set, sorted-set and list operations are not part of this model.
- CacheManager.CacheManager.Initialize: the connection of the in-memory store always succeeds; another Redis backend is not part of this model.
- CacheManager.CacheManager.Get: calls that race with each other are not modelled; the backfill is not atomic with `Set`.
- CacheSpec.StatsCountGets: the counters are unbounded.
- The cache of search results and `MakeCacheKey`: serialization by a library, and a plain concatenation.
- Murmur.MurmurHash3: keys whose length modulo 2^32 is below 2^31, because the length goes through an int and the loop overflows otherwise; on a little-endian machine; the or of two disjoint shifted halves is written as their sum.
- HashRange.ConsistentHash: the same for the lengths of its virtual keys.
- The 128-bit MurmurHash3, FNV-1a, the imitation MD5 and SHA-1, `SimpleHash` and `BloomHash`: no law of their own.
- Tokenizer.Tokenize: `isalnum` is that of the C locale.
- UrlCodec.UrlDecode: the hexadecimal extraction of a stream follows libstdc++ on at most two characters.
- UrlCodec.EncodeQueryParam: `isalnum` is that of the C locale.
- HttpText.Split: without the limit on the number of pieces and without a missing end pointer, which no caller uses.
- MultipartHeaders.HeadersReadBack: `std::regex` is modelled as a parse from the front; inside a body also no line end in the content type and lines under 8192 bytes.
- MultipartSplits.RoundTripIff: the callbacks accept, and the boundary is free of CR and not empty; `parse_multipart_boundary` refuses an empty one (deps/httplib.h:4466).
- ChunkedStreams.WriteContentChunked: without a compressor, and without a shutdown in between; the calls of the provider are given as a list.
- ChunkedStreams.ReadContentChunked: the headers are kept in the order they are added, not sorted by name; unsigned long has 64 bits.
- SocketStream.SocketStream.Read: the socket is a sequence of bytes to come with arbitrary short reads; waiting, timeouts and interrupted calls show only as a failed read.
- Ranges.Request.RangeError: sizes are unbounded; a content length of 0 means the size of the body, as in the code.
- Ranges.ParseRangeHeader: numbers that do not fit 64 bits are refused, as `std::stoll` throws.
- Ranges.GetMultipartRangesDataLength: lengths are unbounded.
- PathParams.Construct: exceptions are enabled, so that a repeated name is refused.
- ThreadPool.Accounted: a critical section is one step; shutdown is called once; jobs end when they end and throw nothing.
- Scheduler.AtMostOneWorker: AddTask, Start and Stop come from one thread, and tasks are added only while the scheduler is stopped, because the worker reads them without a lock; atomics are sequentially consistent and the mutex of the wait is never contended.
- Scheduler.StopReturns: a task that is running is taken to end.
- `InitFromConfig`, `GetAllTaskStatus` and the tasks themselves: configuration and plumbing.
- The rest of `deps/httplib.h`: sockets, TLS, compression, the server's routing and the client.
- `src/utils/vector_utils.cpp`: floating point, where a theorem over the reals would not be about this code.
- The gateway, the admin panel, logging, the training script and the foreign headers: user interface, SQL and calls into libraries.
