# A verified model of chirc's core

This project models the parts of the chirc IRC server that carry its logic, and proves properties of the
model: the two libraries the server compiles in (uthash with utlist and utstring, and sds), the IRC line,
parser and registration logic, and two clients of the hash table, channel membership and an LRU cache.
`dafny verify dfyconfig.toml` checks everything.

Code that works in place is modelled in place: list nodes, hash table elements and strings are objects whose
fields the methods rewrite, buffers are arrays, and every loop of the source is a loop. Each such method is
proved against a function on values, and what the source promises is then proved of that function.

## What is proved

**Hash table** (`Elements`, `BucketChains`, `BucketExpansion`, `AppOrder`, `HashTable`, `OwnedTable`,
`TableRuns`). `HashTable.Valid` is the table's own consistency check: each element is in the chain of its hash
value exactly once, both pairs of links are mutual inverses, the tail is last, counts are right. The abstract
value is the app order, a sequence of elements. The hash function is any function. Over whole runs the table
is an insertion-ordered map: what it holds and answers is stated from the history alone
(`TableRuns.PerformAll`). Sorting is in place, stable, leaves every chain alone and takes the least number of
passes, with fewer comparisons in each than there are elements.

**List sorts** (`StableSort`, `LinkedListSort`). The reference is insertion sort. The merge passes are shown
to double the length of stably sorted blocks, and the three macros (singly linked, doubly linked, circular)
and the table's sort share that result. The three list macros repeat one merge loop, so it is written once
with what differs as parameters.

**Substring search** (`Kmp`, `KmpSearch`, `KmpReverse`). Border theory gives the strong failure table, the
table gives the leftmost occurrence, and the right-to-left pair is the mirror image. Ghost counters bound the
inner loops. The search converts lengths to `int`. What it answers is stated for lengths of any size, and it
is shown to be right from left to right exactly when an `int` can count the haystack, and from right to left
exactly when an `int` can count the needle (in both cases, or when the needle does not fit).

**Dynamic strings** (`Bytes`, `Sds`, `SdsGrowth`, `SdsArgs`, `SdsQuoting`, `SdsBalance`, `SdsSplit`,
`SdsNumber`). Any run of operations acts as on a plain byte string, through every change of header width, and
appending moves the bytes no more often than doubling allows. Quoting then splitting returns any list of byte
strings, no printable quoted form is shorter, and a line splits at all exactly when its quotes balance;
joining what was split returns the input; splitting what was joined returns the tokens exactly when they are
clean; integers print in canonical form and read back. Two places where the code and its comments disagree
follow the code: the comment on `sdssplitlen` says that an empty input gives NULL, the code gives an empty
array; and the assertion in `sdsIncrLen` cuts decreases, and for type 32 also increases, to 32 bits, so it
lets some changes through that are out of range (`Sds.IncrAssertExact` says which; below 2^32 there are none).

**IRC messages** (`Message`, `WordLists`, `MessageBuffer`, `MessageBuilder`). Printing then parsing is the identity on a
message if and only if it is well formed in the sense of section 2.3.1 of RFC 2812. Parsing, printing and
parsing again changes nothing exactly on the lines in which the first space and colon behind the command have
no second space in front, so on all lines that framing hands on.

**Framing** (`Framing`, `Delivery`, `FramingLoop`). However a byte stream is cut into reads, the commands that
come out are those of the whole stream, up to a NUL if it holds one: its lines that are not blank, with the
words they had, and each of them survives printing and parsing. Messages that are printed into a stream come
out of it again, exactly when they are well formed, fit on a line and have no two spaces in a row.

**Registration** (`Registration`, `RegistrationServer`; sections 3.1.2 and 3.1.3 of RFC 2812). After any run
of commands from any connections, what the server knows of a name is decided by the first NICK and the first
USER that give it. A name in both lists is connected unless its NICK came first and its USER had more than
four parameters; such a name is stranded for good.

**Channel membership** (`ChannelUsers`) and **LRU cache** (`Recency`, `LruCache`). A membership is filed with
its user if and only if it is filed with its channel, at most once with each, and the counts on both sides
add up to the same. The cache holds the most recently touched keys, least recent first; its documentation
gives the capacity as the number of entries it can hold, but between calls it holds at most one fewer.

## Model

| member | source | states |
|---|---|---|
| Arithmetic.MaskIsMod | lib/uthash/include/uthash.h:433-436 | masking with a power of two less one is the remainder, for every hash value |
| BucketChains.Push | lib/uthash/include/uthash.h:770-780 | linking at the head of one chain keeps every chain's links mutually inverse and its count right, and leaves the other buckets alone |
| BucketChains.UnlinkFrom | lib/uthash/include/uthash.h:792-806 | unlinking an element at any place of its chain leaves a well-linked chain without it, head and count adjusted |
| BucketExpansion.MoveOne | lib/uthash/include/uthash.h:857-870 | one element lands in the new bucket of its hash value, and excess count and multiplier stay exact |
| BucketExpansion.MoveChain | lib/uthash/include/uthash.h:854-872 | an old chain is split over its bucket and the one num_buckets further on, in reverse order |
| BucketExpansion.RehashAll | lib/uthash/include/uthash.h:846-873 | all chains are split this way, and nonideal_items is the sum over buckets of what exceeds the ideal length |
| BucketExpansion.SplitKeeps | lib/uthash/include/uthash.h:853-873 | the new chains hold exactly the elements of the old, each from bucket b in b or b + num_buckets |
| BucketExpansion.IdealIsCeiling | lib/uthash/include/uthash.h:849-851 | the shift-and-mask formula is the least chain length that could hold all items in the new buckets |
| BucketExpansion.MultExact | lib/uthash/include/uthash.h:859-864 | the exact multiplier of a bucket of c elements: 0 up to the ideal length, then the ceiling of c over it, with the two exceptions the code makes |
| BucketExpansion.MultBounds | lib/uthash/include/uthash.h:859-864 | m is 0 exactly when c <= I, and otherwise (m - 1) * I < c <= (m + 1) * I |
| AppOrder.Append | lib/uthash/include/uthash.h:281-287 | the app order grows by one element at its end, links and tail kept |
| AppOrder.Remove | lib/uthash/include/uthash.h:462-474 | deleting at any place keeps prev the inverse of next, and head and tail the first and last element |
| HashTable.HashTable.constructor | lib/uthash/include/uthash.h:215-241 | a NULL head is the empty table |
| HashTable.HashTable.Find | lib/uthash/include/uthash.h:156-173 | the result is an element with the key, and NULL exactly when no element has it |
| HashTable.HashTable.FindInBucket | lib/uthash/include/uthash.h:748-767 | walking one chain decides the question for the whole table |
| HashTable.HashTable.MakeTable | lib/uthash/include/uthash.h:215-241 | a new table has 32 empty buckets and the first element as its tail |
| HashTable.HashTable.Add | lib/uthash/include/uthash.h:399-425 | adding a key that is absent appends the element to the app order and keeps the whole invariant; the number of buckets doubles exactly when the element's bucket reaches its threshold |
| HashTable.HashTable.AddToTable | lib/uthash/include/uthash.h:340-348 | after linking, every element is in exactly the chain of its hash value again |
| HashTable.HashTable.Expand | lib/uthash/include/uthash.h:836-886 | twice the buckets, same app order, every chain split, all statistics exact, and noexpand set after two expansions in a row that left more than half of the items over the ideal |
| HashTable.HashTable.Delete | lib/uthash/include/uthash.h:450-480 | the app order loses exactly that element, the rest of the invariant stays; deleting the last element gives the empty table |
| HashTable.AloneIffUnlinked | lib/uthash/include/uthash.h:456 | the test on prev and next picks out exactly the table of one element |
| HashTable.HashTable.Count | lib/uthash/include/uthash.h:1070 | the count is the length of the app order |
| HashTable.HashTable.SortLoop | lib/uthash/include/uthash.h:899-972 | the passes end with a list linked both ways, head and tail right, after the least k >= 1 passes with 2^k >= n, and at most (n - 1) * k comparisons |
| HashTable.HashTable.Sort | lib/uthash/include/uthash.h:888-975 | for a total preorder the app order becomes its stable sort, for any comparator a permutation, in the O(n log n) comparisons promised; chains and buckets are outside its frame |
| HashTable.HashTable.DeleteAll | lib/uthash/include/uthash.h:1059-1066 | iterating with a saved successor visits every element in order even when the body deletes each |
| HashTable.Fsck | lib/uthash/include/uthash.h:519-566 | in a valid table bucket counts add up to num_items and to the app order, and each element is in one chain only |
| HashTable.CountSumIsCard | lib/uthash/include/uthash.h:526-548 | the counts of the first k buckets add up to the number of elements filed there |
| TableRuns.PerformAll | lib/uthash/include/uthash.h:156-480 | after any legal run of adds, deletes and finds the table holds the added items that were not deleted again, in the order they were added, and every find answers accordingly, whatever the hash |
| TableRuns.RunLeavesSurvivors | lib/uthash/include/uthash.h:399-480 | performing a run step by step and reading it off the history give the same sequence |
| TableRuns.DeleteKey | lib/uthash/include/uthash.h:450-480 | find and delete drop exactly the item with the key, or nothing |
| TableRuns.LookupIs | lib/uthash/include/uthash.h:156-173 | a look-up finds an item under its key, and finds none exactly when there is none |
| StableSort.StableSorts | lib/uthash/include/uthash.h:889-891 | the reference is a sorted permutation in which equal elements keep their order |
| StableSort.MergeStable | lib/uthash/include/utlist.h:138-159 | merging two stably sorted runs stably sorts their concatenation |
| StableSort.PassDoubles | lib/uthash/include/utlist.h:124-169 | one pass turns stably sorted blocks of k into stably sorted blocks of 2k |
| StableSort.PassesSort | lib/uthash/include/utlist.h:113-171 | the passes from run length 1 are the stable sort |
| StableSort.PassesPermute | lib/uthash/include/utlist.h:113-171 | for any comparator at all the passes permute |
| LinkedListSort.TakeNext | lib/uthash/include/utlist.h:139-152 | the four-way choice takes the next element of the merge off one of the two runs, and compares only when both have elements left |
| LinkedListSort.MergeRuns | lib/uthash/include/utlist.h:138-159 | the merge loop appends the merge of two neighbouring runs to the output list, links kept, with fewer comparisons than elements |
| LinkedListSort.SplitRun | lib/uthash/include/utlist.h:131-137 | counting off a run stops at its length or at the end of the list or ring |
| LinkedListSort.SortPass | lib/uthash/include/utlist.h:125-161 | one pass over the list is one merge pass on its sequence, nmerges <= 1 exactly when it was the last, and each merge saves a comparison |
| LinkedListSort.LLSort | lib/uthash/include/utlist.h:113-171 | the singly linked list becomes the stable sort, NULL-terminated, after the least k >= 1 passes with 2^k >= n and at most (n - 1) * k comparisons |
| LinkedListSort.DLSort | lib/uthash/include/utlist.h:177-235 | the same order and bounds, prev inverse to next, the head's prev at the last node |
| LinkedListSort.CDLSort | lib/uthash/include/utlist.h:240-311 | the same order and bounds as a ring closed in both directions |
| Kmp.TableUnique | lib/uthash/include/utstring.h:171-207 | the failure table is determined by the needle |
| Kmp.FallBack | lib/uthash/include/utstring.h:183-186 | falling back along the table passes over no border that could be extended |
| Kmp.Entry | lib/uthash/include/utstring.h:189-203 | the entry chosen is the longest border that the next element does not extend, or -1 |
| Kmp.Slide | lib/uthash/include/utstring.h:265-268 | sliding the needle to its table entry skips no occurrence |
| KmpSearch.BuildTable | lib/uthash/include/utstring.h:171-207 | entry i is the longest border j of the i-prefix with needle[j] != needle[i], or -1; the last entry is the needle's longest border; at most needle-length fallbacks |
| KmpSearch.AsIntIs | lib/uthash/include/utstring.h:263-276 | the conversion to int keeps the low 32 bits, in two's complement |
| KmpSearch.FindIn | lib/uthash/include/utstring.h:251-280 | the one answer that follows from what an int counts of both lengths, for lengths of any size, with at most haystack-length fallbacks |
| KmpSearch.Find | lib/uthash/include/utstring.h:318-360 | the least position from start on where the needle occurs, or -1, when an int can count what is searched, and the answer of the conversion otherwise; a negative start counts from the end |
| KmpSearch.FindExact | lib/uthash/include/utstring.h:263-276 | the search is right for all needles of m and all haystacks of n elements exactly when n < m or n < 2^31 |
| KmpSearch.FindExactForAll | lib/uthash/include/utstring.h:263-276 | for a given haystack length, the search is right for every needle exactly when the length is below 2^31 |
| KmpSearch.Misled | lib/uthash/include/utstring.h:263-276 | for each pair of lengths beyond that, a needle and a haystack that get a wrong answer |
| KmpSearch.AnswerUnique | lib/uthash/include/utstring.h:251-280 | there is only one answer, so a wrong one is what the search gives |
| KmpReverse.BuildTableR | lib/uthash/include/utstring.h:211-247 | reflected in index and value, the table is the forward table of the reversed needle; same bound |
| KmpReverse.FindInR | lib/uthash/include/utstring.h:284-314 | the one answer: the last occurrence, or -1, for needles that an int can count; for others the place that matching the counted part and shifting by the whole needle's table leads to; at most haystack-length fallbacks |
| KmpReverse.FindR | lib/uthash/include/utstring.h:364-402 | the same within indices 0..start: for a countable needle the greatest position where it occurs wholly within them, or -1 |
| KmpReverse.ReportHolds | lib/uthash/include/utstring.h:297-309 | a place reported for a needle that an int cannot count holds the part of it that is counted |
| KmpReverse.AnswerRUnique | lib/uthash/include/utstring.h:284-314 | there is only one answer, so a wrong one is what the search gives |
| KmpReverse.FindRExact | lib/uthash/include/utstring.h:297-309 | the search is right for all needles of m and all haystacks of n elements exactly when n < m or m < 2^31 |
| KmpReverse.FindRExactForAll | lib/uthash/include/utstring.h:297-309 | for a given needle length, the search is right in every haystack exactly when the length is below 2^31 |
| KmpReverse.MisledR | lib/uthash/include/utstring.h:297-309 | for each pair of lengths beyond that, a needle and a haystack that get a wrong answer |
| Sds.ReqType | lib/sds/sds.c:60-74 | the least header type whose range holds the size |
| Sds.WidthsDouble | lib/sds/sds.h:45-75 | a type 5 header counts below 32, a type 8 header in one byte, each wider one in twice as many bytes as the one before |
| Sds.String.SetLen | lib/sds/sds.h:130-152 | the length is stored exactly when it fits the header, and the type stays |
| Sds.String.constructor | lib/sds/sds.c:89-145 | a valid string with those bytes and no free space; an empty one has type 8 |
| Sds.String.MakeRoomFor | lib/sds/sds.c:204-247 | room for addlen more bytes and the same contents; when it grows, it allocates the need and as much again, but at most a megabyte, under the least header type but 5, and moves the old bytes; nothing changes when there is room |
| Sds.String.RemoveFreeSpace | lib/sds/sds.c:255-290 | no free space and the same contents; the header shrinks to type 5 or 8 or stays |
| Sds.String.CatLen | lib/sds/sds.c:397-406 | contents grow by the given bytes; the old bytes are moved, and room is preallocated, exactly when the free space does not suffice |
| Sds.String.CpyLen | lib/sds/sds.c:426-435 | contents become the given bytes |
| Sds.String.GrowZero | lib/sds/sds.c:379-390 | contents are padded with NULs to the length, or kept |
| Sds.String.IncrLen | lib/sds/sds.c:333-372 | for callers within its contract the assertion holds and the contents are the buffer up to the new length |
| Sds.IncrAssertExact | lib/sds/sds.c:340-365 | the assertion agrees with the range check exactly outside three families of arguments |
| Sds.SmallAmountsJudged | lib/sds/sds.c:340-365 | for amounts below 2^32 either way, and for type 64, the assertion is wrong only in refusing no change to a type 5 string |
| Sds.HugeDecreaseAccepted | lib/sds/sds.c:347 | an out-of-range decrease that the assertion lets through |
| Sds.PerformAll | lib/sds/sds.c:204-435 | any sequence of operations does to the string what it does to a plain byte string and keeps length, allocation, width and NUL in order |
| SdsGrowth.GrowthIsPaid | lib/sds/sds.c:216-220 | what a growth allocates pays for the bytes it moves and for all moved before |
| SdsGrowth.AppendAll | lib/sds/sds.c:204-406 | appending any pieces one by one moves at most twice the final length when that is below a megabyte, and at most 2n + 4n^2 / 2^20 bytes for any final length n |
| SdsArgs.CatRepr | lib/sds/sds.c:884-907 | appends the quoted form between two quotes, which the SdsQuoting rows describe |
| SdsArgs.SplitArgs | lib/sds/sds.c:959-1067 | ends on every NUL-terminated line with its arguments, or with NULL for unbalanced quotes |
| SdsArgs.GetToken | lib/sds/sds.c:968-1047 | the three-mode loop reads exactly one token and stops behind it |
| SdsArgs.TokenUndoesByte | lib/sds/sds.c:976-1010 | inside double quotes the parser undoes the escape of any byte |
| SdsArgs.SingleQuotesRead | lib/sds/sds.c:1011-1025 | between single quotes any bytes are read back, apostrophes written with a backslash, if and only if the last is no backslash |
| SdsArgs.PlainRead | lib/sds/sds.c:1026-1044 | outside quotes bytes that are neither blank nor quotes are one token, which the next blank ends |
| SdsArgs.ArgumentsUndoRepr | lib/sds/sds.c:951-952 | the arguments of any quoted byte strings, joined by single spaces, are those strings |
| SdsArgs.JoinedIsPrintable | lib/sds/sds.c:884-907 | quoted forms hold no NUL, so they survive as C strings |
| SdsBalance.SplitsIffBalanced | lib/sds/sds.c:959-1067 | a line splits exactly when each quotation in it ends, at a quote that no backslash takes away, and a blank or nothing follows the end |
| SdsBalance.DoubleQuoteEnds | lib/sds/sds.c:976-1010 | a double quotation ends at the first quote behind an even number of backslashes |
| SdsBalance.SingleQuoteEnds | lib/sds/sds.c:1011-1029 | a single quotation ends at the first apostrophe that is not directly behind a backslash |
| SdsArgs.QuoteThenSplit | lib/sds/sds.c:884-1067 | printer and parser run one after the other return the list they were given |
| SdsQuoting.QuotedAsItself | lib/sds/sds.c:884-907 | a string is quoted as itself exactly when all its bytes are printable and neither quotes nor backslashes |
| SdsQuoting.QuotedIsShortest | lib/sds/sds.c:884-1010 | no printable form between double quotes that reads back to the string is shorter than the one that is written |
| SdsQuoting.NoUpperAdded | lib/sds/sds.c:898-901 | the escapes bring in no upper-case letter: hex digits are written in lower case |
| SdsQuoting.HexDigitsCount | lib/sds/sds.c:919-939 | hex digits count from 0 to 15, letters in either case |
| SdsQuoting.HexEitherCase | lib/sds/sds.c:976-985 | the parser reads a hex escape the same in either case |
| SdsQuoting.OtherEscapes | lib/sds/sds.c:986-999 | a backslash before any byte that is not the letter of an escape leaves that byte |
| SdsQuoting.QuotationEndsToken | lib/sds/sds.c:1026-1044 | a quotation behind plain bytes belongs to the same token, and ends it |
| SdsQuoting.PlainArguments | lib/sds/sds.c:964-1047 | plain words between spaces, tabs, newlines or returns are the arguments |
| SdsSplit.SplitLen | lib/sds/sds.c:820-858 | the pieces between the leftmost separators, no array for an empty separator, and the token array always has room for the final element |
| SdsSplit.JoinSds | lib/sds/sds.c:1106-1115 | the tokens with the separator between any two |
| SdsSplit.JoinOfSplit | lib/sds/sds.c:820-858 | joining the pieces of any input gives it back |
| SdsSplit.PiecesHoldNoSep | lib/sds/sds.c:844-851 | no piece holds the separator |
| SdsSplit.SplitOfJoin | lib/sds/sds.c:820-858 | splitting a join returns the tokens exactly when the join is not empty and in each token the separator behind it is the first, or there are no tokens |
| SdsSplit.CleanForOneByte | lib/sds/sds.c:844-851 | for one-byte separators that means that no token holds it |
| SdsSplit.LongSeparatorShifts | lib/sds/sds.c:844-851 | with a longer separator separator-free tokens can split elsewhere |
| SdsNumber.DecimalReadsBack | lib/sds/sds.c:450-479 | the decimal form is canonical, reads back to the value, and has a minus exactly for negatives |
| SdsNumber.CanonicalIsDecimal | lib/sds/sds.c:450-479 | every canonical form is the decimal form of its value |
| SdsNumber.PutReversed | lib/sds/sds.c:458-462 | the digit loop writes the digits in reverse |
| SdsNumber.ReverseInPlace | lib/sds/sds.c:469-477 | the first l bytes are reversed, the rest is kept |
| SdsNumber.Ll2Str | lib/sds/sds.c:450-479 | the canonical form and its NUL are written within 21 bytes |
| SdsNumber.Ull2Str | lib/sds/sds.c:482-508 | the same for every unsigned 64-bit value |
| Message.PrintThenParse | src/message.c:13-115 | parsing what is printed gives the message back if and only if it is well formed |
| Message.ParsedShape | src/message.c:30-79 | what every parsed message satisfies, from whatever line |
| Message.UpperExact | src/message.c:53-54 | toupper takes the lower-case letters in order onto the upper-case ones, and leaves every other character alone |
| WordLists.ParsedWords | src/message.c:13-84 | parsing in terms of words: it fails exactly when there is no command; the prefix is a first word with a colon; the command is the next word but for its case, without lower-case letters; and the other words are the parameters when none starts with a colon |
| WordLists.ParamsAreWords | src/message.c:56-79 | without a word that starts with a colon, the parameters are the words |
| Message.ParsePrintParse | src/message.c:13-115 | on a line with normalised spaces the parsed message is well formed and printing it parses to the same message |
| Message.RoundTripExact | src/message.c:13-115 | a line survives parsing, printing and parsing again exactly when the first space and colon behind the command have no further space in front |
| Message.ParamsHideNoColon | src/message.c:58-79 | the parameters that are read are well formed exactly under that condition on their text |
| Message.DoubleSpaceLosesColon | src/message.c:60-73 | the shortest line that shows it: what is parsed of it and what printing makes of that |
| Message.ParamsReadBack | src/message.c:58-79 | the parameter loop reads printed parameters back exactly when they are well formed |
| MessageBuffer.StrtokSpace | src/message.c:30 | strtok_r finds the next word, ends it in place and saves where to go on |
| MessageBuffer.NextParam | src/message.c:60-73 | one trip round the loop takes the next parameter, short or long, and disturbs no earlier one |
| MessageBuffer.ReadParams | src/message.c:56-79 | the loop leaves pointers to all parameters of the line, at most 15 |
| MessageBuffer.UpperInPlace | src/message.c:53-54 | the command is upper-cased in place, letter by letter as UpperExact says, everything around it is kept |
| MessageBuffer.FromString | src/message.c:13-84 | the in-place parser computes the message of the line, or fails as it should |
| MessageBuffer.ToString | src/message.c:88-115 | the buffer ends up holding the printed message |
| MessageBuffer.PrintAndParse | src/message.c:13-115 | printer then parser, on their buffers, return the message if and only if it is well formed |
| MessageBuilder.MessageStruct.constructor | src/message.c:119-132 | a message with no parameters |
| MessageBuilder.MessageStruct.AddParameter | src/message.c:136-142 | one more parameter at the end, the others kept, and the flag replaced |
| MessageBuilder.Store | src/main.c:898-909 | the copying loop gives the command and all parameters in order, without the prefix, the last parameter long |
| MessageBuilder.StoredReadsBack | src/main.c:898-909 | what is stored prints to a line that parses to it again, so to the command and parameters it was copied from, exactly unless the command starts with a colon |
| Framing.Crlf | src/main.c:759-761 | the result is -1 or leaves room for the two bytes |
| Framing.CrlfIsFirst | src/main.c:759-761 | it is the first CRLF before any NUL, and negative exactly when there is none |
| Framing.LinesAndTail | src/main.c:759-774 | a stream is its lines followed by its tail, each line holds its CRLF only at the end, the tail none |
| Framing.LinesUnique | src/main.c:759-774 | there is no other way to cut it |
| Framing.LinesOfTwoReads | src/main.c:730-774 | the lines of two reads are those of the first, then those of its tail followed by the second |
| Framing.ReadsDoNotMatter | src/main.c:730-781 | commands and left-over bytes are those of the whole stream, however it is cut into reads |
| Framing.SqueezedLine | src/main.c:203-228 | a normalised line is a line, its content is normal, and it is blank exactly when the line was |
| Framing.CommandsSettled | src/main.c:759-784 | every command of any stream is a normal line of more than CRLF, and what parses of it survives printing and parsing again |
| Framing.SqueezeKeepsNonSpaces | src/main.c:203-228 | normalising adds and loses nothing but spaces |
| WordLists.SqueezeKeepsWords | src/main.c:203-228 | normalising leaves the list of words as it is |
| Delivery.CommandOfLine | src/main.c:776-784 | a line that is blank but for its CRLF gives no command, any other line gives one, with its text and its words |
| Delivery.EveryLineDelivered | src/main.c:756-784 | the commands of a stream are, one by one and in order, its lines that are not blank |
| Delivery.PrintIsOneLine | src/message.c:88-115 | a printed message is one line of framing exactly when its body holds no NUL and no CRLF |
| Delivery.SentExact | src/message.c:13-115 | a printed message is framed unchanged and parses to itself exactly when it is well formed, no part of it holds a NUL or a CRLF, and its long parameter has no two spaces in a row |
| Delivery.MessagesArrive | src/main.c:730-784 | such messages, printed one behind the other and cut into reads anywhere, come out one by one and parse to themselves |
| Framing.NulEndsStream | src/main.c:759 | behind a NUL no CRLF is found any more: such a stream gives no further command |
| Framing.TailKeepsHidden | src/main.c:759-774 | a CRLF is left over unread exactly when some CRLF of the stream stands behind a NUL |
| Framing.SqueezeLength | src/main.c:203-228 | normalising never lengthens a string, and keeps its length exactly when it is normal already |
| Framing.FirstFitsExact | src/main.c:756-784 | the normalised line leaves room for its NUL unless the read fills the buffer with just one normal line |
| FramingLoop.CopyWord | src/main.c:210-215 | the inner loop copies one word |
| FramingLoop.TrimSpace | src/main.c:203-228 | the output is the squeezed input with CRLF as its last two bytes, within the input's length |
| FramingLoop.FindCrlf | src/main.c:759 | strstr finds the first CRLF before any NUL, or none, also in a full buffer in which it stops |
| FramingLoop.Connection.TakeLine | src/main.c:761-777 | the first line is taken out normalised, shorter than its buffer, the rest moves to the front, zeros behind it |
| FramingLoop.Connection.Receive | src/main.c:756-784 | one read yields the commands its lines complete, each shorter than its buffer, so NUL-terminated; the buffer holds the unconsumed tail with zeros after it; the loop ends |
| FramingLoop.ReceiveAll | src/main.c:730-784 | over all reads of a connection the commands are those of the whole stream, each NUL-terminated |
| Registration.RunKeepsInv | src/main.c:847-1034 | after any run each table holds a name at most once, and each connected name is in both lists with the message of its USER |
| Registration.AddsNewNames | src/main.c:857-1009 | no step adds a name that the connection table already holds |
| Registration.History | src/main.c:847-1034 | for every name, presence in the lists and the exact entry of the connection table follow from its first NICK and first USER |
| Registration.FirstUserIsKept | src/main.c:938-1034 | after any run, the user entry of a name, and its connection entry if there is one, hold the command and all parameters of the first USER for it |
| Registration.FourLettersDecide | src/main.c:857-938 | a command is a NICK or a USER by its first four letters, whatever follows them, and never both |
| Registration.ConnectedIsIntersection | src/main.c:857-1034 | the connection table is the intersection of the lists exactly when no name is stranded |
| Registration.FourParametersStrandNobody | src/main.c:984-986 | when no USER has more than four parameters, connected is the same as being in both lists |
| Registration.StrandedForGood | src/main.c:857-1034 | a stranded name is never connected, whatever is sent later |
| Registration.StrandedExample | src/main.c:857-1034 | NICK, then USER with five parameters: the name is in both lists and not connected |
| Registration.RegisteredReadsBack | src/main.c:953-972 | the message registration stores of a NICK or USER line always prints to a line that parses to it again |
| RegistrationServer.FindUserNode | include/my_utils.h:88-111 | the first node with the name, or NULL exactly when there is none |
| RegistrationServer.AddUserNode | include/my_utils.h:40-52 | the list grows by the node at its end |
| RegistrationServer.Server.Connect | include/my_utils.h:182-189 | the connection table grows by the entry, and stays valid |
| RegistrationServer.Server.FindConnection | include/my_utils.h:191-201 | found exactly when the table has an entry of that name |
| RegistrationServer.Server.HandleNick | src/main.c:857-936 | the lists and the table change as the state machine says |
| RegistrationServer.Server.HandleUser | src/main.c:938-1034 | the same for USER with at least four parameters |
| RegistrationServer.Server.HandleAll | src/main.c:847-1034 | any sequence of commands leaves the state of the run, on lists and tables that stay valid |
| OwnedTable.AddTo | src/channeluser.c:88-89 | adding to one of many tables leaves the others as they were |
| OwnedTable.DeleteFrom | src/channeluser.c:102-103 | the same for deleting |
| OwnedTable.NewOwners | src/user.c:13-23 | any number of empty tables that share nothing |
| ChannelUsers.Network.constructor | src/channeluser.c:60-104 | users and channels with empty tables have no memberships, and are those the network is given |
| ChannelUsers.Network.Get | src/channeluser.c:60-67 | the membership of the pair, or NULL exactly when there is none, from the channel's table alone |
| ChannelUsers.Network.GetOrCreate | src/channeluser.c:71-93 | created exactly when the pair was absent; then one membership more, filed in both tables, and nothing else changed |
| ChannelUsers.Network.Remove | src/channeluser.c:97-104 | one membership less, in both tables |
| ChannelUsers.Network.NumChannels | src/user.c:82-85 | the number of memberships of the user |
| ChannelUsers.Network.NumUsers | src/channel.c:68-71 | the number of memberships of the channel |
| ChannelUsers.SameMembership | src/channeluser.c:60-104 | a pair is in the user's table if and only if it is in the channel's, and at most once in each |
| ChannelUsers.CountsAgree | src/channeluser.c:71-104 | channel counts over all users, user counts over all channels, and memberships are the same number |
| ChannelUsers.PerformAll | src/channeluser.c:60-104 | over any run of joins and parts the memberships are those of the run on sets |
| ChannelUsers.Serve | src/channeluser.c:60-104 | from new tables for any number of users and channels, a run ends with the memberships of the run on sets |
| ChannelUsers.LastDecides | src/channeluser.c:71-104 | a pair is a member after a run exactly when its last command was a join |
| Recency.HoldsMostRecent | lib/uthash/tests/lru_cache/cache.c:139-213 | after any legal run the keys are the last max_entries - 1 of the recency list, least recent first |
| Recency.FindsMostRecent | lib/uthash/tests/lru_cache/cache.c:152-160 | a key is found exactly when it is among those, with the data last inserted under it |
| Recency.StepTouches | lib/uthash/tests/lru_cache/cache.c:152-210 | each call moves the touched key to the end and drops at most the oldest |
| Recency.LargerHoldsMore | lib/uthash/tests/lru_cache/cache.c:139-213 | with a client that inserts what it misses, a larger cache holds all a smaller one does, in the same order |
| Recency.InsertedIsFound | lib/uthash/tests/lru_cache/cache.c:152-199 | what has just been inserted is found, with its data, exactly when its key has at most 32 bytes and the capacity exceeds one |
| LruCache.Cache.constructor | lib/uthash/tests/lru_cache/cache.c:56-75 | an empty cache of the given capacity |
| LruCache.Cache.Lookup | lib/uthash/tests/lru_cache/cache.c:139-163 | a hit returns the data and moves the entry to the end, a miss changes nothing |
| LruCache.Cache.Insert | lib/uthash/tests/lru_cache/cache.c:178-213 | the entry goes to the end, and the first is dropped and freed exactly when the count reaches the capacity |
| LruCache.PerformAll | lib/uthash/tests/lru_cache/cache.c:139-213 | over a whole run every look-up is answered from the most recently touched keys |

## Left out

- HashTable.HashTable.Add: a key that is already present; the library leaves it to the caller, and two elements of one key break the map.
- HashTable.HashTable.Expand: num_buckets is a 32-bit field and wraps round at the 27th doubling, which a hash function made for it can bring about with some hundreds of items when every allocation succeeds; bucket and item counts and hash values are unbounded here.
- HashTable.HashTable.Sort: the 32-bit run length and item count, which wrap round on lists of 2^32 elements or more.
- LinkedListSort.LLSort: the run length is a signed int, which overflows on lists of more than 2^30 elements; and the casting variant for compilers without typeof.
- LinkedListSort.DLSort: the same.
- LinkedListSort.CDLSort: the same.
- Sds.String.IncrLen: what a release build does outside the contract; only the assertion is modelled there.
- Sds.String.MakeRoomFor: lengths whose growth passes SIZE_MAX, where the source's sum wraps round.
- SdsNumber.Ll2Str: the least 64-bit value, whose negation is undefined in C.
- SdsSplit.SplitLen: a negative length, which also gives NULL; lengths here are natural numbers.
- SdsArgs.CatRepr: locales other than C for isprint, and likewise for isspace and toupper elsewhere.
- MessageBuffer.FromString: lines of more than 15 parameters and printed messages of 1024 bytes or more, which overrun the source's fixed arrays.
- FramingLoop.Connection.Receive: two reads that fill the buffer to its last byte: one that leaves neither a CRLF nor a NUL in it, so that strstr reads past it; and one that leaves in it just one line of 1024 bytes, already normal, whose copy has no room for a NUL, so that strlen reads past it (Framing.FirstFitsExact).
- FramingLoop.ReceiveAll: the same reads.
- RegistrationServer.Server.HandleAll: names of 128 bytes or more, which overrun the name field, and lines the parser rejects, and NICK or USER without parameters, after which the source reads fields that were never set.
- LruCache.Cache.Insert: a key that is already cached, as for the table; a NULL cache, key or data; and locks.
- ChannelUsers.Network.GetOrCreate: membership modes; users and channels are numbers in place of their addresses.
- Table and handle objects: the table's separate struct is merged into one object with its head, and each element has one pair of handles; the struct around a channel-membership handle is found by a map instead of an offset.
- Buffers that sds reallocates: the string object stays and its buffer field changes, so stale pointers are not modelled.
- Handlers that write reply text into the receive buffer: the framing model takes them as leaving it alone.
- Thread interleavings inside one command: a command is one step, although look-up and add take separate locks.
- Out-of-memory branches, the Bloom filter, HASH_SELECT, the inorder adds and the concrete hash functions.
- Sockets, replies, the connection counters, the table from descriptors to nicks, and signal handling.
- Formatted printing, trimming, ranges and comparison of sds strings, and del_user_node, which nothing calls.
