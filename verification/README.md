# Xaric in Dafny

Xaric is an IRC client written in C. Most of it drives a terminal and sockets, but it holds several
algorithms and small protocols of its own, and this project models those and proves what they are
for. Each module keeps the shape of the C code: linked lists and hash tables are objects on the heap
whose links are changed in place, loops are loops, and each method is proved against a specification
about which the theorems are stated.

- **Wildcard matching** (`Wildcard`, `WildcardLimits`, `WildcardMeaning`). The mask matcher behind
  ignore lists, bans and notify lists. `Matches` says what a mask means, and `WildcardMeaning` says
  the same in terms of the mask's characters alone. The matcher keeps only one place to go back to for
  `*` and one for `%`, and `Accepts` is exactly what that finds: `WildMatchScore` returns the number of
  literals if `Accepts` holds and -1 otherwise, for every mask and string, and always ends. `Accepts`
  is sound for every mask. What can make it miss a string is a `%` that commits too early: the items
  after it, up to the next `%` or literal space, fit once before they fit where they should. `CommitsAt`
  says of a mask when that can happen. A mask none of whose `%` commits finds everything it describes,
  and for masks without `*` no other mask does: each has a string it describes but does not find.
- **Lists and ignoring** (`Lists`, `Ignore`). Sorted linked lists with a best-match lookup, and the
  ignore list built on them.
- **DCC file transfer** (`Dcc`, `DccClient`). Sender, bytes in flight, queue of acknowledgements and
  getter as a transition system with 32-bit counters, for files of any length; resumption by RESUME
  and by RESEND.
- **Hash tables and flood control** (`HashTable`, `NickTable`, `Whowas`, `Flood`, `FloodWindow`).
  Chained tables whose entries move to the front when found, the whowas counters, the table of
  recent senders whose own size count drifts, and the per-nick flood windows.
- **Channel modes** (`Modes`, `ModesMeaning`). Printing a mode and parsing it are inverse, and a sign
  with its letters changes exactly the bits it names.
- **Prefix search** (`Alist`), **CTCP extraction** (`Ctcp`), **line input** (`Newio`), **history**
  (`History`) and **line editing** (`Editor`).

`Ircaux`, `Chain` and `Bits` hold what they share: the string functions of `ircaux.c`, linked chains,
and the bits of a number.

Characters are ASCII; a C string is a sequence of characters. Clock readings, settings, what the
kernel returns and which branch a hook takes are parameters. Where the code differs from what it says
about itself, the model follows the code:

- The order of the tests in `check_ignore` does affect the verdict when a message is of several kinds at
  once, as topic changes are (`Ignore.OrderMattersForSeveral` says exactly when).
- `do_ctcp` works out a limit of four CTCPs a message and then overwrites it (`ctcp.c:479-486`); only
  `do_notice_ctcp` keeps to it. `Ctcp.QueryCallsMoreThan` and `Ctcp.QueryKeepsToLimit` say exactly when a
  query goes beyond it all the same, and `Ctcp.QueriesHaveNoLimit` gives the lines.
- The hash tables fold fewer characters than the comparison of names does, so a name can be missed
  under another spelling of a bracket: `HashTable.OneBucketIsExact` says for which names and table
  sizes, and `NickTable.MissBracket` builds a table that has "[" and does not find "{".
- `remove_ignore` says that it clears everything that matches if there is no entry of the name itself,
  but looks the name up as a plain one again and so clears nothing (`Ignore.RemoveIgnore`, and
  `Ignore.MatchIsNotCleared` for an input).
- A yank that is cut short leaves the cursor one past the end of the line
  (`Editor.CursorStaysInLine`).
- `set_history_size` may leave the position on an entry that is gone.

What is assumed of the environment: in `Dcc`, a send takes the whole block, the four bytes of an
acknowledgement arrive together, and the file does not change during the transfer. In `Flood`, a
nick is not empty and fits the name field of an entry, the FLOOD_USERS setting is at least one and
does not change, and the clock never goes back. In `Editor`, the prompt fits the buffer and does not
change between the commands compared.

## Model

| member | source | states |
|---|---|---|
| Wildcard.WildMatchScore | reg.c:228-314 | The loop with its two single-level backtrack points terminates on every input and returns the mask's number of literals exactly if the mask accepts the string, otherwise -1. |
| Wildcard.ReadOrGoBack | reg.c:248-311 | The branch for a literal: the search reads a character, or goes back behind the latest `%` or `*` and keeps what it knows, or has its result. |
| Wildcard.ReadStar | reg.c:234-239 | Reading a `*` keeps the search among the states from which success is still possible exactly if the mask accepts; the `%` point may be dropped. |
| Wildcard.ReadPercent | reg.c:240-243 | Likewise a `%`, which forgets the earlier `%` point. |
| Wildcard.ReadAny | reg.c:244-247 | Likewise a `?`. |
| Wildcard.ReadLiteral | reg.c:249-281 | Likewise a literal or quoted character that agrees, which counts, and drops the `%` point at a space. |
| Wildcard.GrowPercent | reg.c:292-301 | A mismatch after `%` may go on from one character later without losing a match. |
| Wildcard.GrowStar | reg.c:292-308 | A mismatch that no `%` can mend may go on from one character later after the `*`. |
| Wildcard.NoStar | reg.c:292-310 | Without either, no match exists. |
| Wildcard.AtEnd | reg.c:255-264 | Reaching the end of the mask with the string, or right after wildcards that began with `*`, is a match with the right count. |
| Wildcard.NoneLeft | reg.c:244-254 | A mask that needs a character beyond the end, or quotes nothing, has no match. |
| Wildcard.AcceptsIsSound | reg.c:228-314 | Whatever is accepted is described by the mask, for all masks and strings. |
| Wildcard.RunIsRead | reg.c:244-281 | The items after a wildcard that take one character each are read where they stand, whatever comes after them. |
| Wildcard.SpaceMeetsRun | reg.c:276-279 | If such items fit twice before a space, the later time without a space in between, they overlap with themselves. |
| Wildcard.SettledEarlier | reg.c:240-301 | The exchange argument: a `%` that does not commit may as well end at the first place where what follows it settles. |
| Wildcard.AcceptsIsComplete | reg.c:228-314 | Every string described by a mask none of whose `%` commits is accepted, and every string without spaces that any mask describes. |
| Wildcard.OrderlyNeverCommits | reg.c:240-301 | No `%` commits in a mask with no `?` between a `%` and the next literal space, `%` or `*`. |
| Wildcard.DoubtfulSpaceIsMissed | reg.c:276-301 | `%? x` commits: it describes "a", two spaces and "x", and is not found in it. |
| WildcardLimits.CompleteUnlessCommits | reg.c:228-314 | For every mask without `*` the matcher finds every string the mask describes if and only if no `%` commits (or the mask ends with a backslash that quotes nothing, and describes no string). |
| WildcardLimits.TrapWorks | reg.c:240-310 | For every mask without `*` with a `%` that commits, the constructed string is described and not accepted. |
| WildcardLimits.OverlayFits | reg.c:240-301 | For a `%` before a literal space: items that overlap with themselves fit before two spaces of one string, at once and further on. |
| WildcardLimits.EarlierFails | reg.c:240-310 | Once the items after a `%` fit, the matcher does not look further, and fails if what is left has too many spaces for the rest of the mask. |
| WildcardLimits.MissedBehind | reg.c:234-310 | What a `%` describes and misses, the whole mask describes and misses: every `%` before it settles at once. |
| WildcardLimits.FirmCommitIsMissed | reg.c:228-314 | With `*` or without: a mask with a `%` before any `*` that commits, and a literal where the space will be that it was led past, describes a string that is missed. |
| WildcardLimits.StarDoesNotHelp | reg.c:228-314 | `%? x*` is such a mask. |
| Wildcard.Match | reg.c:316-320 | `match` is 1 only on a match, and 1 on every match if no `%` of the mask commits or the string has no spaces. |
| Wildcard.WildMatch | reg.c:322-326 | A match scores 1 and one more for each literal of the mask; 0 is no match, with the same completeness. |
| WildcardMeaning.StarMeans | reg.c:234-239 | A mask that begins with `*` describes exactly what the rest of it describes behind any text. |
| WildcardMeaning.PercentMeans | reg.c:240-243 | A mask that begins with `%` describes exactly what the rest of it describes behind any text without a space. |
| WildcardMeaning.QuestionMeans | reg.c:244-247 | `?` stands for exactly one character. |
| WildcardMeaning.QuoteMeans | reg.c:249-254 | A backslash makes the next character, whatever it is, stand for itself up to case, and count as one. |
| WildcardMeaning.BackslashMeans | reg.c:249-254 | A backslash at the end of a mask matches nothing. |
| WildcardMeaning.LetterMeans | reg.c:266-281 | Any other character stands for itself up to the case of letters, and counts as one. |
| WildcardMeaning.WildcardsAlone | reg.c:228-326 | `*` alone scores 1 on every string, `%` exactly on those without a space, `?` exactly on those of one character. |
| WildcardMeaning.QuotedTextIsFound | reg.c:228-326 | A text with a backslash before every character is found, with a score of 1 and one more for each character, in exactly the strings that equal it up to the case of letters. |
| Ircaux.MyStricmp | ircaux.c:461-521 | Zero exactly for names that IRC takes to be the same; otherwise the difference at the first place where they part. |
| Ircaux.FoldIsExact | ircaux.c:461-495 | Two characters are taken to be the same exactly if they are equal, a letter and its capital, or one of the three pairs of brackets. |
| Ircaux.ArgOfWords | ircaux.c:293-311 | Words joined by a space come apart again. |
| Ircaux.NextArg | ircaux.c:293-311 | The loop form of taking a word computes the recursive one. |
| Ircaux.Sindex | ircaux.c:730-755 | The first place that holds a character of the group, or of none of it if the group begins with `^`. |
| Chain.Inserted | list.c:70-88 | The link changes of an insertion give the chain with the node inserted. |
| Chain.Removed | hash.c:83-94 | The link changes of a removal give the chain without the node. |
| Chain.Moved | hash.c:67-77 | The link changes of a move to the top give the chain in that order, without losing a node. |
| Lists.CaseCompareIsOrder | list.c:38-41 | The comparison of the sorted lists is reflexive, antisymmetric in sign and transitive. |
| Lists.FirstDifferenceDecides | list.c:38-41 | The name that ends first, or has the smaller lower-case letter, at the first difference comes first. |
| Lists.ZeroIsSameText | list.c:38-41 | The comparison is zero exactly for names that are equal up to the case of letters. |
| Lists.InsertionKeepsOrder | list.c:70-88 | Putting a name before the first greater one keeps the list sorted. |
| Lists.List.Add | list.c:70-98 | On the heap, the node is linked in at that place and nothing else changes. |
| Lists.BestIsUnique | list.c:110-119 | Only one entry is the first of the best, so what a wildcard lookup returns is determined. |
| Lists.List.FindWild | list.c:101-126 | A wildcard lookup returns the first entry with the most literals among those that match, and none exactly if none matches. |
| Lists.List.Find | list.c:101-136 | A plain lookup returns the first entry of that name. |
| Lists.List.Remove | list.c:138-157 | Unlinks exactly the first entry of that name, and leaves the list as it was if there is none. |
| Ignore.LatestUpdateWins | ignore.c:152-188 | After any run of updates the four masks are disjoint, and each kind is in the mask of the last update that named it and in no other. |
| Ignore.EveryKindIsMeant | ignore.h:50-54 | All kinds means every kind there is. |
| Ignore.IgnoreNickname | ignore.c:101-194 | One name of an ignore command: the entry found is updated, a missing one is added at its sorted place, a removal of a missing one changes nothing, and a removal of all kinds takes the entry out. |
| Ignore.RemoveIgnore | ignore.c:261-316 | The first entry of that name goes and is counted; all others stay, in order. Where there is no such entry nothing matches the name afterwards if and only if nothing did before. |
| Ignore.MatchIsNotCleared | ignore.c:286-309 | With "a*" in the list, "ab" names no entry and matches one, which the loop was to clear. |
| Ignore.IgnoresKeepsDisjoint | ignore.c:152-188 | That keeps the masks of every entry of the list disjoint. |
| Ignore.OrderMattersForSeveral | ignore.c:715-730 | After any run of updates the order of the tests never affects the verdict, if and only if at most one kind is asked about. |
| Ignore.SeveralKindsDiffer | ignore.c:715-730 | For any two kinds or more there are updates and an order of tests that give another verdict. |
| Ignore.OneKindOneHit | ignore.c:715-730 | With one kind, the flag that is hit is the only one whose mask holds it, in whatever order. |
| Ignore.CheckIgnore | ignore.c:700-744 | The best entry for the sender decides, then the best entry for the channel, with exceptions and the words looked for. |
| Ignore.LatestCommandDecides | ignore.c:152-188 | For a message of one kind: an exception lets it through; else the latest command for the sender that named the kind ignores, highlights or protects; else the latest one for the channel does, or greps, which ignores what holds no word looked for. |
| Ignore.SameUpperIsCase | ircaux.c:247-263 | The comparison of words is equality up to the case of letters. |
| Ignore.Stristr | ircaux.c:247-263 | Finds a word if and only if it occurs, whatever the case of the letters. |
| Ignore.AnyMatches | ignore.c:709-712 | An exception applies if and only if one of its masks scores. |
| Ignore.AnyOccurs | ignore.c:731-739 | A grepped channel lets through what one of its words occurs in. |
| Ignore.UpdateMasks | ignore.c:152-188 | The masks of the entry are updated in place; all other entries stay. |
| Ignore.AddEntry | ignore.c:143-146 | A new entry at its sorted place; all other entries stay. |
| Dcc.BlockSize | dcc.c:148-161 | The block size is the value from 16 to 8192 that is nearest to the setting. |
| Dcc.StepKeepsInv | dcc.c:1368-1528 | Every step of either side keeps the invariant: counters agree with positions, written and in-flight bytes are the part of the file sent, queued acknowledgements draw closer to what was sent. |
| Dcc.GoAheadIsLast | dcc.c:1466-1488 | The acknowledgement on which the sender goes on is the last one queued, and nothing is in flight: at most one block is outstanding. |
| Dcc.TransferIsSafe | dcc.c:1466-1522 | In every state of every run, written plus in-flight bytes are the file from the offset to the read position, and a sender that completes has a getter with the whole file from the offset. |
| Dcc.NeverStuck | dcc.c:1368-1528 | In every reachable unfinished state some step is enabled. |
| Dcc.StepDecreases | dcc.c:1466-1522 | Every step makes (file left, bytes in flight, queued acknowledgements, open sides) smaller. |
| Dcc.RunsAreShort | dcc.c:1368-1528 | No run takes more than three steps per byte, and three. |
| Dcc.StepStaysClean | dcc.c:1513-1528 | With an honest announced size the getter never stops before it has everything. |
| Dcc.RunsDeliver | dcc.c:1368-1528 | Every finished run with an honest size and a permissible offset has closed normally with the whole rest of the file written. |
| DccClient.Outgoing.Process | dcc.c:1368-1489 | The sender's code does the connect or acknowledgement step of the transition system: on a go-ahead, with a setting in range, exactly the next bytes of the file go out, as many as the setting says or as are left; an offset past the end, a lost connection and any other acknowledgement send nothing. |
| DccClient.Outgoing.ReadAndSend | dcc.c:1480-1488 | The block is the rest of the file cut to the setting; position and counter grow by it; an empty one closes the transfer. |
| DccClient.Incoming.Process | dcc.c:1491-1528 | The getter's code does the read step: it writes the chunk, acknowledges the total, completes at the announced size and closes past it. |
| DccClient.OffsetSurvives | dcc.c:1383-1401 | For all four pairings of byte orders the sender decodes the id and the offset that the getter wrote. |
| DccClient.TestTellsOrders | dcc.c:2555-2565 | The byte-order test tells the two orders apart. |
| DccClient.DccResumeRequest | dcc.c:733-763 | The first pending offer to that user on that port, and no other entry, takes the position asked for as where to seek and as what its counter starts from if it is within the announced size, and 0 if it is past it. |
| DccClient.ResumedFileIsWhole | dcc.c:990-998 | A file that was a prefix of the source and is resumed equals the source when the transfer is over, counted from zero or from the offset. |
| HashTable.HashNickname | hash.c:48-61 | The loop computes the hash of the whole name. |
| HashTable.ShortNamesAddUp | hash.c:48-61 | Up to six ASCII characters the hash is the sum of the lower-cased characters in base 16. |
| HashTable.MixBits | hash.c:55-57 | What the mixing does to every bit: 28 to 31 are cleared and go into 4 to 7 by exclusive or; all others stay. |
| HashTable.CarryIsKept | hash.c:50-54 | The word is wider than 32 bits: what is carried out of bit 31 is kept. |
| HashTable.HashIgnoresCase | hash.c:48-61 | Names equal up to the case of letters hash alike. |
| HashTable.SpellingsShareBucket | hash.c:48-61 | All spellings of a name without brackets share a bucket. |
| HashTable.BracketsMayPart | ircaux.c:461-495 | "{" and "[" are one name with two hashes. |
| HashTable.BracketFreeHasOneBucket | hash.c:48-61 | All spellings of a name without brackets have one hash, in a table of any size. |
| HashTable.OneBucketIsExact | hash.c:193-216 | All spellings of a name have one hash for a table size if and only if no table of that size, with its names in their buckets, makes a lookup miss the name. |
| NickTable.LinkToTop | hash.c:67-77 | Moving a node to the top of its chain permutes the chain. |
| NickTable.LinkBefore | hash.c:176-191 | A new node heads the chain. |
| NickTable.Unlink | hash.c:83-94 | A removed node leaves the chain and its next becomes NULL. |
| NickTable.Table.Search | hash.c:193-216 | The search stops at the first node of that name in the bucket of its hash, and knows its predecessor. |
| NickTable.Table.Find | hash.c:193-216 | Finding moves that node to the top of its chain or takes it out; every node stays in the bucket of its hash and links stays the length of the chain; no hit is counted. |
| NickTable.Table.Add | hash.c:176-191 | Adding puts the node at the head of the chain of its hash, which has one more hit. |
| NickTable.Table.Rename | names.c:1051-1071 | The node goes from the bucket of its old name to the top of the bucket of the new one; the set of nodes is unchanged. |
| NickTable.Table.Next | hash.c:227-266 | Each call returns the next node of the buckets in order. |
| NickTable.Table.Walk | hash.c:227-266 | Walking from NULL to NULL visits every node of the table exactly once. |
| NickTable.Table.Clear | names.c:70-80 | The remove-the-first loop terminates and empties the table, having passed every node in order. |
| NickTable.FlatOnce | hash.c:227-266 | Nodes in the buckets of their hashes appear once in a walk. |
| NickTable.LookupSeesItsBucket | hash.c:193-216 | For any name: a lookup fails exactly if every entry of that name has another hash, and never misses an entry that is equal up to the case of letters. |
| NickTable.LookupIsComplete | hash.c:193-216 | Where all spellings of a name have one hash, a lookup fails exactly if the whole table has no such name. |
| NickTable.Table.LookupMisses | hash.c:193-216 | A lookup in a table on the heap misses a name just when the names in its buckets do. |
| NickTable.MissSpelling | hash.c:176-216 | For any two spellings of a name with different hashes: a table that is given the one, and in which the other is not found. |
| NickTable.MissBracket | hash.c:176-216 | "[" is entered in a table of 79 buckets, and "{" is not found. |
| NickTable.TableIsASet | hash.c:176-216 | Against a plain set: finding changes nothing, removing takes out one node, adding puts in one. |
| NickTable.FlatSize | hash.c:176-216 | The size of the table changes by what one chain does. |
| Whowas.HashUserhostChannel | hash.c:376-399 | The two loops hash host and channel as one string. |
| Whowas.Cache.Add | hash.c:440-456 | A record goes to the head of the chain of its key; total_links less total_unlinks stays the number of entries. |
| Whowas.Cache.Find | hash.c:458-483 | The first record with that host and channel goes to the top, or out of the table and into total_unlinks; the counters keep agreeing with the entries. |
| Whowas.Cache.RemoveOldIn | hash.c:590-606 | The loop over a bucket ends with nothing old in it, and removes nothing exactly if nothing was old; where no key is there twice, what is left is exactly the young records in their order. |
| Whowas.Cache.RemoveOldest | hash.c:581-607 | Without a count: no old record is left anywhere, total_unlinks grows by what was removed, and every bucket whose keys differ keeps exactly its young records. |
| Whowas.Cache.RemoveSome | hash.c:608-627 | With a count: that many records go, or all if there are no more, in the order of a walk; the rest stays. |
| Whowas.Cache.FirstBucket | hash.c:495-510 | The walk starts at the first bucket that has something. |
| Flood.AddName | hash.c:654-667 | One more entry in the bucket of the sender. |
| Flood.Free | flood.c:455-459 | Removing an entry by its name takes one out of that bucket, the entry itself if the names there differ; its next is NULL, which is what the loops then read. |
| Flood.RemoveExpiredIn | flood.c:450-462 | One bucket ends up with fresh entries only, and where no nick is there twice with exactly the young ones in their order. |
| Flood.RemoveExpired | flood.c:448-463 | The same for every bucket; the result is how many entries went. |
| Flood.RemoveSomeIn | flood.c:466-480 | The first entry goes from a bucket that has any, since the link read next is that of the entry just removed. |
| Flood.RemoveSome | flood.c:464-482 | At most the limit goes, and at least one if there is one. |
| Flood.RemoveOldest | flood.c:440-484 | Both halves of the function. |
| Flood.NothingIsFresh | flood.c:325-327 | A removal with no age left empties the table: nothing has started after now. |
| Flood.NoAlarmBefore | flood.c:336-380 | Over any run of messages to one entry, whatever their kinds and times, no alarm comes before the count has run up again. |
| Flood.AlarmsAreApart | flood.c:344-379 | After an alarm the next one is at least n + 1 messages away, if no kind with a limit and a rate has a limit below n. |
| Flood.AlarmsCanBeThatClose | flood.c:344-379 | For every limit and rate the bound is met. |
| Flood.AlarmIsExact | flood.c:344-368 | The alarm is raised exactly by a counted message of a kind seen before that exceeds the limit with the flag down, in the second of the first one or with count * rate above limit * elapsed. |
| Flood.BurstRaisesAlarm | flood.c:344-368 | From any entry with the flag down and a count within the limit: the messages that take the count past the limit, within the seconds of the rate, raise the alarm at the last of them. |
| Flood.SlowSenderIsSpared | flood.c:344-379 | A sender whose messages keep so far apart that the limit's worth of gaps stays within the rate never raises it, over runs of any length. |
| Flood.KindsAreKept | flood.c:336-343 | Over any run of messages the kinds seen are remembered, and messages that are each the first of their kind do not count. |
| Flood.Tracker.MakeRoom | flood.c:325-327 | After it `pos` is within the limit, or the table is empty. |
| Flood.Tracker.AddSender | flood.c:325-334 | A new entry with its first message; the table is within the limit. |
| Flood.Tracker.CheckSender | flood.c:324-380 | For a sender that is watched: the entry found is counted, or a new one made, and the table is within the limit. |
| Flood.Tracker.CheckFlooding | flood.c:312-381 | In any run the table holds at most FLOOD_USERS entries, although `pos` drifts; the entry of the sender is counted or made. |
| Flood.Tracker.Clean | flood.c:486-489 | The periodic clean-up leaves only fresh entries, exactly the young ones where names differ, and does not touch `pos`; the bound and the invariant survive. |
| FloodWindow.Record.IsOtherFlood | flood.c:221-292 | The code computes one tick of the window; an exempt nick is not counted, and with the setting off nothing is judged. |
| FloodWindow.Record.SetFlood | flood.c:175-219 | The counter is reset to one event at the given time, or counts one more. |
| FloodWindow.NoFloodBefore | flood.c:237-290 | No flood is reported before the window has filled as often as its start demands. |
| FloodWindow.FloodsAreApart | flood.c:237-290 | Two positive verdicts on one record are at least twice (flood_count - 1) calls apart. |
| FloodWindow.ApartIsTight | flood.c:237-290 | For every count of at least two and every rate, two floods can be exactly that far apart. |
| FloodWindow.FullWindowFloods | flood.c:237-290 | Whatever the times in between: the event that fills a window floods exactly if it comes in the second the window began or less than the rate after it; the next window begins at 0 after a flood, and at that event otherwise. |
| Modes.Channel.RecreateMode | names.c:311-341 | The printed mode is the letters of the bits in order, then key and limit. |
| Modes.Channel.DeciferLetter | names.c:761-878 | One letter of a mode change does what the reading says. |
| Modes.Channel.UpdateMode | names.c:741-887 | The parser's loop over the letters computes the reading of the mode string. |
| Modes.PrintLetters | names.c:323-328 | The loop over the mask prints one letter for each bit. |
| Modes.NumberReadsBack | names.c:334-335 | A positive limit printed in decimal reads back as itself. |
| Modes.AtoiReadsTheNumber | names.c:881-885 | A limit is read up to the first character that is no digit, with its sign; every number printed reads back. |
| Modes.ReadKey | names.c:834-841 | The key letter takes exactly the key off the arguments. |
| Modes.ReadLimit | names.c:773-783 | The limit letter takes exactly the limit. |
| Modes.ReadHigh | names.c:770-801 | The letters of the bits without arguments add up to the mask. |
| Modes.RoundTrip | names.c:905-913 | Parsing "+" and the printed mode on a channel without modes restores the mask, and key and limit where their bits are set. |
| ModesMeaning.OneBit | names.c:875-878 | Setting or clearing a bit of the mask changes that bit and no other. |
| ModesMeaning.SignedLetters | names.c:766-878 | A sign and the printed letters of any mask without key and limit put in, or take out, exactly the bits of that mask, whatever the channel had; key, limit and all other bits stay. |
| ModesMeaning.MinusUndoesPlus | names.c:766-878 | Putting in bits that were out and taking them out again changes nothing. |
| ModesMeaning.KeyLetter | names.c:834-841 | "+k" with a word sets that key, "-k" with a word leaves none; the bit goes with it and nothing else changes. |
| ModesMeaning.MinusLimit | names.c:773-786 | "-l" leaves a limit of 0 and takes out its bit. |
| ModesMeaning.PlusLimit | names.c:773-786 | "+l" with a positive number sets that limit and its bit. |
| ModesMeaning.PlusNoLimit | names.c:779-781 | "+l" with a word that begins with 0 takes the limit out instead. |
| ModesMeaning.BareLetter | names.c:766-878 | Without a word behind it, "+k" leaves no key and "+l" a limit of 0; operators, voices, bans and unknown letters change nothing. |
| ModesMeaning.ChangesAreReadBack | names.c:804-872 | Any series of operator, voice and ban changes, written with a sign only where it differs from the one before, is read back as it was: each letter takes its own argument, in order, with the sign then in force. |
| Alist.TakeKeepsOrder | alist.c:84-90 | Cutting entries to the length of the name keeps their order, so the comparison falls along a sorted table. |
| Alist.CompareFalls | alist.c:84-90 | Before an entry that is too small all are too small, after one that is too great all are too great. |
| Alist.MissIsGap | alist.c:77-82 | When the position repeats, nothing completes the name, all before it is smaller and all after it greater. |
| Alist.ExactIsFirst | alist.c:113-121 | An exact entry heads the entries that complete the name. |
| Alist.CompletesMeans | alist.c:84-90 | An entry completes a name exactly if it begins with that text up to the case of letters. |
| Alist.Bisect | alist.c:74-92 | The bisection ends, with an entry that completes the name or with the place of the name. |
| Alist.FindFixedArrayItem | alist.c:65-133 | On a hit cnt is the number of completions, loc the first, and cnt is negative exactly if one is exact; on a miss there is none and loc is where the name belongs. |
| Ctcp.SplitCtcp | ctcp.c:816-837 | The first complete CTCP and what is before and after it; a lone delimiter is no CTCP. |
| Ctcp.CharCount | misc.c:1313-1323 | The number of delimiters. |
| Ctcp.RoundDropsTwo | ctcp.c:489-493 | A round takes two delimiters out of the buffer, exactly two unless its end is cut off, so that the loop ends. |
| Ctcp.Extract | ctcp.c:489-606 | The loop computes its rounds. |
| Ctcp.DoCtcp | ctcp.c:466-615 | A line with fewer than two delimiters comes back as it is, any other goes through the loop cut to 510 characters, with no limit on the number of CTCPs. |
| Ctcp.DoNoticeCtcp | ctcp.c:620-703 | The same for replies, where more than eight delimiters silence all handlers. |
| Ctcp.EveryLineHasFields | ctcp.c:816-837 | Every line is its fields with delimiters between them. |
| Ctcp.LoopReadsFields | ctcp.c:489-606 | As long as line and dates fit, the loop keeps the even-numbered fields, hands the odd-numbered ones over in order, keeps a lone last delimiter with its tail and ends at an empty CTCP. |
| Ctcp.LineIsRead | ctcp.c:466-615 | The same for the whole function. |
| Ctcp.HandleIsTurn | ctcp.c:507-584 | One CTCP calls at most one handler, and only an unlimited one lets another follow. |
| Ctcp.HandlersTakeTurns | ctcp.c:489-606 | Over any line, unlimited handlers run first, then at most one limited one, then at most one offer to the user; none at all for an ignored sender or a global target. |
| Ctcp.UnlimitedCommands | ctcp.c:86-133 | In the program's table UTC and ACTION are the unlimited queries and UTC the unlimited reply. |
| Ctcp.CommandAndArgument | ctcp.c:523-528 | The command is exactly what precedes the first space and the argument exactly what follows it. |
| Ctcp.HandleIsExact | ctcp.c:523-606 | By the name of the command: on a query every known one runs with just its argument, and all but UTC, ACTION, SOUND and TROUT are announced; on a reply UTC, ACTION, DCC and PING run and all but UTC are announced; only UTC leaves text, the date of its argument. |
| Ctcp.HurriedIsSilent | ctcp.c:538-560 | Too soon after the last answer, a query other than ACTION and DCC does nothing. |
| Ctcp.CommandsAreDescribed | ctcp.c:86-133 | The flags of the program's table by the names of the commands. |
| Ctcp.OneCtcpIsRead | ctcp.c:466-703 | A line with one CTCP, as query or reply, runs exactly its command with exactly its argument, and keeps the text around it. |
| Ctcp.QueryCallsMoreThan | ctcp.c:476-606 | For every n: a query that fits calls more than n handlers if and only if it begins with n CTCPs for unlimited handlers and one more for any handler, and the sender is not ignored nor the target global; with n = 4 it goes beyond the limit. |
| Ctcp.QueryKeepsToLimit | ctcp.c:476-606 | For every line of more than eight delimiters: a query is silenced, as the limit would have it, if and only if it does not begin with a non-empty CTCP, or the sender is ignored or the target global, or the first CTCP comes too soon after the last answer. |
| Ctcp.QueriesHaveNoLimit | ctcp.c:476-486 | The line that goes beyond the limit: any number of UTC requests that fit all run in a query; in a reply they run if there are at most four. |
| Newio.Reader.Fill | newio.c:128-137 | Bytes read go to the end of the buffer, within its 512. |
| Newio.Reader.Refill | newio.c:112-141 | With nothing held, select and read either end the call or bring bytes to hand out, as the reader without a buffer would see it. |
| Newio.Reader.HandOut | newio.c:142-149 | Held bytes are handed out up to a newline or the limit. |
| Newio.Reader.Dgets | newio.c:96-150 | Whatever pieces data comes in, a call does what a reader without a buffer does, and leaves the same behind; read_pos <= write_pos <= 512. |
| Newio.PiecesDoNotMatter | newio.c:128-137 | Splitting a piece of data does not change the stream. |
| Newio.CallLosesNothing | newio.c:111-150 | What a call hands out and what it leaves make up the stream. |
| Newio.CallIsExact | newio.c:111-150 | A full call stops at the first newline or at the limit; 0 is returned exactly at the end or an error. |
| Newio.CallTakesWhatItReports | newio.c:111-150 | A call takes exactly the bytes it hands out, and the time-out, end or error that cut it short; its errno is that of the error, or 0. |
| Newio.StreamIsWhatCame | newio.c:128-137 | The text of the stream is the bytes that were read, in order. |
| Newio.RunLosesNothing | newio.c:111-150 | Over any run the strings handed out, partial ones included, and what is left make up the stream in order. |
| History.History.DropTail | history.c:119-126 | The oldest entry goes, links and ends stay consistent. |
| History.History.PushHead | history.c:129-141 | A new entry goes to the front, links and ends stay consistent. |
| History.History.MakeRoom | history.c:116-128 | Before a new entry the list is one short of full: the oldest goes if it was full. |
| History.History.AddToHistoryList | history.c:110-142 | The newest lines up to the limit are kept, newest first. |
| History.History.AddPiece | history.c:182-187 | One piece of a line is added and counted. |
| History.History.AddToHistory | history.c:176-190 | A line is added piece by piece between its line ends. |
| History.History.GetFromHistoryBuffer | history.c:192-222 | PREV and NEXT move one entry around the circle; without a position the input is added first and the walk starts at the newest or the oldest line. |
| History.History.Move | history.c:200-217 | One step around the circle. |
| History.History.SetHistorySize | history.c:150-169 | The oldest lines go; a position stays good exactly if its entry stayed. |
| History.MovesAreInverse | history.c:192-222 | PREV and NEXT undo each other. |
| History.MovesMakeOneCycle | history.c:192-222 | PREV moves through all entries before it comes back. |
| History.CutEarly | history.c:110-142 | Dropping old lines early or late makes no difference. |
| History.RunKeepsNewest | history.c:110-190 | After any run of inputs the list holds the newest of all their lines. |
| History.PushIsReverse | history.c:110-190 | Line i of the list is the one added i lines before the last. |
| History.PiecesJoinBack | history.c:180-188 | The pieces of a line hold no line end, and joined by the line ends they are the line. |
| History.PiecesOfJoined | history.c:180-188 | Any lines joined by line ends of either kind come apart into just those lines. |
| Editor.Editor.AddCharacter | input.c:560-596 | Insert and overwrite, with what is pushed past the end of the buffer cut off. |
| Editor.Editor.Backspace | input.c:422-454 | Takes out the character before the cursor, but none of the prompt. |
| Editor.Editor.DeletePreviousWord | input.c:512-530 | Kills from the start of the word before the cursor. |
| Editor.Editor.DeleteNextWord | input.c:535-554 | Kills to the end of the word after the cursor. |
| Editor.Editor.ClearToEol | input.c:605-612 | Kills the rest of the line. |
| Editor.Editor.ClearToBol | input.c:618-633 | Kills what is between prompt and cursor. |
| Editor.Editor.ClearLine | input.c:638-647 | Kills everything but the prompt. |
| Editor.Editor.YankCutBuffer | input.c:692-709 | Inserts the cut buffer and moves the cursor behind it, as far as the buffer goes. |
| Editor.BackspaceUndoesTyping | input.c:422-596 | A backspace undoes a typed character if and only if there was room for it. |
| Editor.YankUndoesKill | input.c:512-709 | A yank after a kill restores the text if and only if the line fits the buffer (or the kill was beyond its end), with the cursor behind what came back. |
| Editor.YankUndoesClearToBol | input.c:618-709 | The same for clearing to the beginning, which restores the cursor too. |
| Editor.CursorStaysInLine | input.c:422-709 | Every command keeps MIN_POS <= THIS_POS <= length, except exactly a yank that is cut short; the prompt is never touched. |
| Editor.OverwritingKeepsTheRest | input.c:587-592 | Overwriting replaces the character under the cursor and no other, or adds one at the end. |
| Editor.GapsAreNotWords | input.c:519-522 | Gaps between words are white space and all printing ASCII characters but letters and digits. |
| Editor.PreviousWordGoes | input.c:512-530 | What goes is the gaps before the cursor and the whole word before them, back to a gap or the prompt; it is what the cut buffer holds. |
| Editor.NextWordGoes | input.c:535-554 | What goes is the gaps from the cursor on and the whole word behind them, up to a gap or the end. |

## Left out

- Windows, the status line, termcap, sockets, select, hooks, output formats, logging, DNS, fork and
  exec: display and I/O. A handler call is an event in a trace.
- Characters of 128 and above in the fold tables.
- WildcardLimits.CompleteUnlessCommits: masks with `*` have no exact condition here. That none of their
  `%` commits is enough (Wildcard.AcceptsIsComplete), and that one commits firmly before any `*` is too
  much (WildcardLimits.FirmCommitIsMissed); between the two a `*` can make good for a `%` that commits,
  as in `%?%*` and `*b%b? x`.
- HashTable.HashNickname: `unsigned long` is taken to be 64 bits wide.
- Ignore.IgnoreNickname: the split of a list at commas and the completion to nick!user@host are not
  modelled, nor is an entry left under the uncompleted name.
- Dcc.TransferIsSafe: partial sends and split acknowledgements are not modelled.
- DCC chat and raw connections, which buffer partial lines in their own way, and the bookkeeping of the
  client list (`dcc_searchlist`, `dcc_erase`, `dcc_check`, `dcc_really_erase`).
- Whowas.Cache.Find: the chains are sequences here; that relinking does on the heap what is said is
  proved in NickTable, for the same code over another entry type.
- Whowas.Cache.RemoveOldIn: every record has its nick record, so that no bucket is passed over.
- The rest of `next_userhost`, which is `next_nicklist` over again.
- Flood.Tracker.CheckFlooding: `flood_prot` is a parameter that says whether it dealt with the sender.
- FloodWindow.Record.IsOtherFlood: one record and one kind of event; the settings, and whether the nick
  is our own or on the no-flood list, are parameters.
- DccClient.Outgoing.Process: failures of accept, open and send are not modelled; that the offset of a
  RESEND packet is decoded right is DccClient.OffsetSurvives.
- Modes.Channel.UpdateMode: operators, voices and bans are recorded as events; the nick and ban lists
  they change are not part of it.
- Modes.RoundTrip: the key and the limit are taken to fit the print buffer and an int.
- `compress_modes`, which is built only on request and does not keep the meaning of voices.
- Ctcp.LineIsRead: where pasted dates push a line past 510 characters only Ctcp.Extract says what
  becomes of it, and what the 2048-character buffer itself can hold is not checked.
- Ctcp.SplitCtcp: the buffers are strings that are cut where the code writes a NUL; the hooks' answers and
  the reply times the loop stores are not followed.
- Newio.Reader.Dgets: one descriptor; when the script of what the kernel returns is over, the call
  times out. The characters that a call has stored when it meets the end of file are counted as
  handed out, although the code does not terminate that string.
- History.History.GetFromHistoryBuffer: `history_match` and the numbers of entries are not followed.
- Editor.Editor.AddCharacter: the line is a string rather than an array with a terminating NUL, and the
  array's own end is not checked; redisplay and `input_transpose_characters` are not modelled.
- Text substitution (`expand_alias`) and the table of subprocesses.
