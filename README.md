# Celeste chat bot core, modelled in Dafny

Celeste is a Twitch chat bot with a desktop window. The model covers the `Bot` object of
`bot.cpp`, the conversions and the GET request queue of `globals.h`, and the `Command` and
`Media::Emote` entities of `entities.h`. In detail it covers:

- **Chat lines.** `Bot::ParseChatMessage` reads a chat line in several steps:
  - it parses the IRCv3 tag prefix into the message record: display name, color, badges with
    the broadcaster and moderator flags, and emote occurrences sorted by start. The emotes are
    exactly one per well-formed `start-end` occurrence of every `id:` entry; for example
    `25:0-4,6-10` over `Kappa Kappa` gives two emotes of id 25, both named `Kappa`;
  - it cuts the login out of the hostmask;
  - it treats a hosting notice from the system account `jtv` specially;
  - it tries a `!command` at the head of the text;
  - otherwise it records the speaker's arrival, unwraps a `/me` action, names the emotes,
    announces a wall of text, and shows the message with its text HTML-escaped.
- **Command tables.** These are the bot's command lookup and its native-command flag table:
  - the fifteen built-in commands are declared by the constructor through `DeclareCommand`;
  - the JSON command list is read back by `DeserializeCommands`, including alias records;
  - the tables are written out as that list by `SerializeCommands`. Reading the written list
    back restores every built-in or typed command, and every alias of a full command.
- **Dispatching a command.** `DispatchCommand` decides whether a command runs. The
  protected-command check uses the broadcaster and moderator flags. A command that runs has an
  effect, chosen by its type or its native flag. The pure parts of those effects are modelled:
  - the video to play, from `DispatchVideo` and `DispatchRandomVideo`;
  - the command list;
  - the hosting notice;
  - the `<volume> <seconds>` request of `AdjustVibeVolume`;
  - the hours/minutes/seconds split of `DispatchUptime`;
  - the date-stamped panic text.
- **Viewer attributes.** The JSON viewer attributes are loaded and saved, and arrivals and
  welcomes update them.
- **Network queue.** `Network::Request` keeps GET requests in a queue and sends them one at a
  time. POST and PATCH requests are sent at once.

## Modelling choices

- **State of the `Bot` object.** The bot is the class `Celeste.Bot`. Its fields are:
  - `commands`, the command lookup;
  - `flags`, the native-command flag table;
  - `viewers`, the viewer attributes;
  - `events`, every signal emitted and every viewer lookup started, in order.
- **Viewer lookups.** A lookup that reaches the Twitch API is an event. What the bot does when
  the answer arrives is a method of its own: `CommandRecognized` or `ArrivalRecognized`.
- **Pure logic.** The logic behind each method is a function. Lemmas state the meaning of
  those functions, and each method's `ensures` ties it to its function.
- **Settings.** The settings the core reads are a `Settings` value: the built-in command names,
  the wall-of-text threshold, the sounds, the emote directory, and the badge icon paths already
  downloaded.
- **Unordered map iteration.** `std::unordered_map` iteration order is not fixed by the
  program. It is a parameter in two places: the `entries` of `SerializeCommands` and the
  `order` of the command list. In a third place the model fixes it: the leftover alias records
  of `SerializeCommands` (`bot.cpp:253-262`) come in the order their parents were first met
  among the entries (`Serialization.Leftovers`).
- **`StringView` helpers.** The definitions of `StringView::Take`, `First` and `Last` are not
  part of this model. The definitions used follow from how `bot.cpp` calls them:
  - `Take(w, d)` has nothing to give only when the window `w` is empty. Otherwise it gives the
    piece before the first `d` (or all of `w`) and advances the window past that `d` (or empties
    it).
  - `First(w, d)` gives the piece before the first `d`, or all of `w` when there is no `d`.
    `Last(w, d)` gives the piece after the last `d`, or all of `w`. Either one is missing
    exactly when that piece is empty.
- **`Command` entity.** The shown `entities.h` has no alias constructor, no
  `Parent()`/`Children()` and no `PULSAR` type, but `bot.cpp` uses all of them. An alias is
  modelled as the parent's fields under the alias name with `parent` set to the parent's name.
  `Children()` is modelled as the set of names of the aliases whose parent is that name, so the
  command list shows each command's alias names as a set.
- **Behaviour of the code worth noting.** The model keeps these behaviours of the code:
  - a protected command asked for by an unprivileged viewer makes `DispatchCommand` return
    false, so the line is then shown like any other;
  - declaring a name twice keeps the first declaration;
  - an emote bound that is not a number makes `ParseChatMessage` throw. Its caller is not part
    of this model; `Celeste.Handle` gives such a line an empty outcome, as it does a line with
    no login (`Celeste.UnreadableLineIgnored`);
  - a hostmask without `!` is accepted, and the login is then the whole hostmask up to the
    first space (`Line.LoginMeaning`);
  - a repeated badge keeps its first version;
  - the uptime command carries the total-time flag and the total-time command the uptime flag
    (`bot.cpp:108-109`);
  - `SerializeCommands` swaps the command lookup with itself, which leaves it as it was;
  - `SerializeCommands` writes a blank command as a record holding only its name;
  - a record of type `native` for a name that is not built in loads a native command with no
    flag. `SerializeCommands` writes no record for it, so it is gone after a save and a load
    (`RoundTrip.LoadedNativeLost`, `RoundTrip.NativeLost`);
  - `SerializeCommands` drops the flags of native aliases, so dispatching such an alias later
    fails on the flag lookup (`Dispatch.SavedNativeAliasFails`).

## Model

| member | source | states |
|---|---|---|
| Text.TrimStart | bot.cpp:606 | the result is a suffix of the input; everything cut off is white space; the result does not start with white space |
| Text.TrimEnd | bot.cpp:606 | the result is a prefix of the input; everything cut off is white space; the result does not end with white space |
| Text.Trimmed | bot.cpp:598 | `QString::trimmed`: neither end of the result is white space, and it is no longer than the input |
| Text.TrimmedIdempotent | bot.cpp:606-609 | trimming text that is already trimmed changes nothing |
| Text.TrimmedUnchanged | bot.cpp:606-609 | text with no white space at either end is its own trim |
| Text.Mid | bot.cpp:609 | `QStringView::mid`: with a length that fits, the slice of that length; with a negative or overlong length, the rest from `pos`; past the end, empty |
| Text.IndexOfFirst | bot.cpp:514 | no occurrence of the character comes before the index found; with no index found, the character does not occur |
| Text.LastIndexOfLast | bot.cpp:609 | `lastIndexOf`: no occurrence of the character comes after the index found |
| Text.Take | bot.cpp:514 | nothing to take exactly when the window is empty; taking from a non-empty window strictly shrinks it |
| Text.TakeMeaning | bot.cpp:514-516 | the piece taken has no delimiter; with a delimiter, the window was piece + delimiter + rest; with none, the piece is the whole window and the rest is empty |
| Text.TakeAt | bot.cpp:921-923 | with the first delimiter at `i`, the piece is `w[..i]` and the rest `w[i+1..]` |
| Text.First | bot.cpp:560 | missing exactly when the window is empty or starts with the delimiter |
| Text.FirstMeaning | bot.cpp:764 | the piece is a delimiter-free prefix, ending at the first delimiter or at the end of the window |
| Text.Last | bot.cpp:518 | missing exactly when the window is empty or ends with the delimiter |
| Text.LastMeaning | bot.cpp:518 | the piece is a delimiter-free suffix, starting after the last delimiter or at the start of the window |
| Text.FirstLastAround | bot.cpp:559-560 | around the only delimiter of a window, `First` finds what comes before it and `Last` what comes after it |
| Text.TakeThenLast | bot.cpp:516-518 | after a key is taken, the value is the non-empty, delimiter-free end of the pair, and a delimiter precedes it |
| Text.Pieces | bot.cpp:512-521 | the loop of `Take`s yields no piece exactly when the text is empty |
| Text.PiecesStep | bot.cpp:512-514 | the pieces of a window are the first piece taken, then the pieces of the rest |
| Text.PiecesPair | bot.cpp:557-558 | two delimiter-free pieces joined by one delimiter are cut back into exactly those two pieces |
| Text.PiecesFree | bot.cpp:512-521 | no piece contains the delimiter |
| Text.PiecesJoin | bot.cpp:512-521 | joining the pieces with the delimiter gives back the text, less at most one trailing delimiter |
| Text.Split | bot.cpp:853 | `QString::split` always yields at least one part |
| Text.SplitFree | bot.cpp:853 | no part contains the delimiter |
| Text.JoinSplit | bot.cpp:853 | joining the parts of a split with the delimiter gives back the text |
| Text.HtmlEscaped | bot.cpp:624 | `toHtmlEscaped`: the result holds no `<`, `>` or `"` and is no shorter than the text |
| Text.HtmlEscapedRoundTrip | bot.cpp:624 | unescaping the escaped text gives back the text |
| Entities.DefaultCommand | entities.h:20 | the default command is blank, unprotected, not random and not an alias, with empty texts |
| Entities.NewCommand | entities.h:21 | a command with no path, no message and no random choice, holding the given name, description, type and protection |
| Entities.FullCommand | entities.h:22 | every field holds the given value, and the command is not an alias |
| Entities.WithMessage | entities.h:23 | the copy carries the new message and every other field of the original |
| Entities.WithMessageTwice | entities.h:23 | replacing the message twice is the same as replacing it once with the second message |
| Entities.WithOwnMessage | entities.h:23 | copying a command with its own message gives back the command |
| Entities.AliasOf | bot.cpp:179 | the alias answers to its own name, names its parent, and otherwise carries the parent's fields |
| Entities.EmoteLessEquivalent | entities.h:118 | two emotes are equivalent under `operator<` exactly when they start at the same position |
| Entities.EmoteLessStrictWeak | entities.h:118 | `operator<` is a strict weak ordering: irreflexive, asymmetric, transitive, with transitive equivalence |
| Json.Strings | bot.cpp:256-257 | the array holds each name, in order, as a JSON string |
| Json.StringsRoundTrip | bot.cpp:175-178 | reading the array of names back gives the names in order |
| Convert.Positive | globals.h:23-28 | range error exactly when the magnitude exceeds `UINT_MAX`; otherwise the value, or 0 for a negative one |
| Convert.DecimalText | globals.h:47-52 | `QString::number`: all digits, denoting the number, with no leading zero |
| Convert.ParseUnsigned | globals.h:53-59 | `toUInt` succeeds only with a value within 32 bits |
| Convert.ParseSigned | globals.h:40-46 | `toInt` succeeds only with a value within the 32-bit signed range |
| Convert.PositiveInteger | globals.h:53-59 | succeeds exactly when `toUInt` does, with its value; fails with "Unable to convert text to positive number" otherwise |
| Convert.Integer | globals.h:40-46 | succeeds exactly when `toInt` does, with its value; fails with "Unable to convert text to number" otherwise |
| Convert.PositiveIntegerText | globals.h:47-52 | the text of an unsigned number is never empty, so the range error is never raised |
| Convert.IntegerText | globals.h:34-39 | the text of an int is never empty, so the range error is never raised |
| Convert.PositiveIntegerRoundTrip | globals.h:47-59 | reading back the text of an unsigned number gives the number |
| Convert.IntegerRoundTrip | globals.h:34-46 | reading back the text of an int gives the int |
| Convert.PositiveIntegerRejectsEmpty | globals.h:53-59 | the empty text is not a positive number |
| Convert.PositiveIntegerRejectsNegative | globals.h:53-59 | a minus sign before digits is refused |
| Convert.PositiveIntegerRejectsOverflow | globals.h:53-59 | more than ten significant digits overflow and are refused |
| Convert.NumberAgreement | globals.h:61-65 | the singular for a count of one, the plural otherwise |
| Convert.BoundedRange | globals.h:138-142 | the number drawn lies between the bounds, inclusive |
| Convert.Bounded | globals.h:148-153 | an empty container and one of more than `INT_MAX` elements raise their range errors; otherwise the index drawn is valid |
| Registry.InsertMeaning | bot.cpp:126-127 | `unordered_map::insert` adds a missing key and never replaces an existing value |
| Registry.DeclareMeaning | bot.cpp:124-128 | the name is added to both tables; a name already present keeps its command and its flag |
| Registry.DefaultNamesDistinct | bot.cpp:81-95 | the default names of the built-in commands are pairwise different |
| Registry.DeclarationsNames | bot.cpp:97-111 | the constructor declares one command per configured name, in order, under that name |
| Registry.DeclarationsNative | bot.cpp:97-111 | each built-in command is a plain native command, protected exactly when its flag changes the stream, the chat mode or the bot |
| Registry.FirstDeclaration | bot.cpp:97-111 | the declaration found is one of the run and has the name looked for |
| Registry.DeclareAllAt | bot.cpp:97-111 | after a run of declarations, a name is present exactly when it was before or is declared; a name present before is unchanged; otherwise the first declaration of the name wins |
| Registry.FirstDeclarationOf | bot.cpp:97-111 | with distinct names, the first declaration of the i-th name is the i-th declaration |
| Registry.DeclaredKeys | bot.cpp:97-111 | with distinct names, both tables hold exactly the configured names |
| Registry.DeclaredAt | bot.cpp:97-111 | with distinct names, each configured name holds its own declaration and flag |
| Registry.DeclaredTables | bot.cpp:97-111 | with distinct names, both tables hold exactly the configured names, each with its own declaration and flag; every command is a plain native command under its own name, protected exactly when its flag is a protected one |
| Registry.DeclaredFlags | bot.cpp:100-109 | the uptime name carries the total-time flag, the total-time name the uptime flag, and the commands and panic names their own flags |
| Registry.TypeNamed | bot.cpp:157-166 | `COMMAND_TYPES` never yields the blank type |
| Registry.AliasStep | bot.cpp:177-180 | reading an alias keeps the parent command present |
| Registry.Aliases | bot.cpp:173-182 | reading a record's aliases keeps the parent command present |
| Registry.AliasesThrow | bot.cpp:180 | once a flag lookup has thrown, the remaining aliases change nothing |
| Registry.RecordsThrow | bot.cpp:150-183 | once a flag lookup has thrown, the remaining records change nothing |
| Registry.ReadAliases | bot.cpp:173-182 | the alias loop computes the fold over the aliases |
| Registry.ReadRecord | bot.cpp:152-182 | the body of the record loop computes one record step |
| Registry.Deserialize | bot.cpp:148-185 | the record loop, stopping at a throw, computes the fold over the records |
| Registry.ExtendsTransitive | bot.cpp:148-185 | keeping every entry is transitive over successive steps |
| Registry.AliasStepMeaning | bot.cpp:177-180 | a free alias becomes an alias of the parent; the step throws exactly when the command under the alias is native and the parent has no flag; otherwise a native alias ends up with a flag; nothing present is replaced |
| Registry.AliasesExtend | bot.cpp:173-182 | reading aliases never replaces a command or a flag |
| Registry.RecordStepMeaning | bot.cpp:152-182 | a new name of unknown type is skipped with its aliases; a new name of known type becomes the record's command with its defaults; nothing present is replaced; without aliases nothing throws |
| Registry.RecordsExtend | bot.cpp:150-183 | reading records never replaces a command or a flag |
| Registry.DeserializeNeverOverwrites | bot.cpp:148-185 | commands and flags already known, the built-in ones among them, survive the list unchanged |
| Registry.AliasOntoNativeThrows | bot.cpp:179-180 | a video record naming a built-in native command as an alias keeps the native command and throws on the flag lookup |
| Serialization.TypeNameRoundTrip | bot.cpp:206-231 | the type name written is read back as the same type; native and blank commands get no type name |
| Serialization.RecordSurvives | bot.cpp:211-230 | reading a written audio, video or pulsar record rebuilds the command, less the fields that type does not write |
| Serialization.RecordRoundTrip | bot.cpp:202-233 | reading a written record into tables without that name adds exactly the rebuilt command |
| Serialization.BlankRecordSkipped | bot.cpp:155-162 | the record written for a blank command carries no type and is skipped when read back |
| Serialization.Document | bot.cpp:267 | the document is an array of the records, in order |
| Serialization.GatheredLeft | bot.cpp:209 | after the first loop, the old flag table holds exactly the flags of names that are not full native commands |
| Serialization.GatheredMerged | bot.cpp:209 | the merged table holds exactly the old flags of the full native commands |
| Serialization.SerializedFlags | bot.cpp:264-265 | the bot keeps only the flags of full native commands, so an alias that is not itself a full native command loses its flag |
| Serialization.Written | bot.cpp:192-234 | only full commands that are not native get records |
| Serialization.GatheredObjects | bot.cpp:192-234 | the records of the first loop are those of the full non-native commands, in entry order |
| Serialization.GatheredGroups | bot.cpp:196-200 | aliases are grouped under exactly the parent names met, each group listing that parent's aliases in entry order |
| Serialization.GatheredParents | bot.cpp:254-262 | the leftover order lists each group's parent exactly once |
| Serialization.AttachedKeeps | bot.cpp:236-250 | the second loop keeps every record, in order, and only ever adds an `aliases` member |
| Serialization.AttachedRest | bot.cpp:241-245 | the groups left over are exactly those whose parent has no record |
| Serialization.AttachedLists | bot.cpp:236-250 | every group whose parent has a record is attached to that record |
| Serialization.LeftoversMeaning | bot.cpp:254-262 | every group left over is written as a record of its own |
| Serialization.SerializedDocument | bot.cpp:187-268 | the document is the array of records, then the leftover alias records |
| Serialization.SerializedGroups | bot.cpp:187-268 | every parent's aliases are listed, in entry order, in some record of the document |
| Serialization.SerializedListsAliases | bot.cpp:196-262 | every alias appears in the document, in the `aliases` array of a record named for its parent |
| Serialization.GatherEntries | bot.cpp:192-234 | the first loop computes the gathering of the entries |
| Serialization.AttachGroups | bot.cpp:236-250 | the second loop computes the attachment of the groups |
| Serialization.WriteLeftovers | bot.cpp:254-262 | the third loop appends the leftover group records |
| Serialization.Serialize | bot.cpp:187-268 | the three loops produce the serialized document and the kept flag table; `RoundTrip.DocumentRoundTrip` reads it back to the same built-in or typed commands and aliases of full commands, and `RoundTrip.NativeLost` shows that a loaded native command is lost |
| RoundTrip.ParentRestored | bot.cpp:173-182 | while the records are read, a parent already read back stays in the command table as its survivor |
| RoundTrip.RestoringGrows | bot.cpp:148-185 | a step that keeps every entry keeps every command and flag already read back |
| RoundTrip.AliasRestored | bot.cpp:177-180 | reading an alias listed under its parent adds it as an alias of the parent's survivor, with the parent's flag when it is native, and throws nothing |
| RoundTrip.AliasesRestored | bot.cpp:173-182 | reading a written `aliases` array restores every alias in it |
| RoundTrip.RecordRestored | bot.cpp:152-182 | reading a written record restores its command and all its aliases without throwing |
| RoundTrip.RecordsRestored | bot.cpp:150-183 | reading a sequence of written records throws nothing, keeps every entry, and every name it adds is restored as its survivor or as an alias of its parent's survivor |
| RoundTrip.RecordsIntroduce | bot.cpp:150-183 | after the records are read, every record's command and aliases are in the tables |
| RoundTrip.RecordShape | bot.cpp:202-233 | a written record is named for its command, has no `aliases` member yet, and the type name of a typed command reads back as its type |
| RoundTrip.AttachedAliases | bot.cpp:236-250 | an attached `aliases` array lists exactly the group of the record's name, in order |
| RoundTrip.AliasesOfListed | bot.cpp:196-200 | every name in a parent's group is, in the lookup, an alias of that parent |
| RoundTrip.LeftoversShape | bot.cpp:254-262 | each leftover record is named for its parent and lists that parent's group |
| RoundTrip.WrittenContains | bot.cpp:192-234 | every full non-native command among the entries, blank ones included, gets a record |
| RoundTrip.DocumentRecorded | bot.cpp:187-268 | every record of the written document names a command of the lookup and lists only its aliases |
| RoundTrip.FullNamed | bot.cpp:192-234 | every full non-native command of the lookup has a record named for it in the document |
| RoundTrip.AliasListed | bot.cpp:196-262 | every alias of the lookup appears in the `aliases` array of some record of the document |
| RoundTrip.ReadBack | bot.cpp:148-185 | reading the written document back throws nothing, keeps every entry of the tables it starts from, and brings in the command and aliases of every record |
| RoundTrip.ComesBack | bot.cpp:148-268 | a command of the lookup comes back as its survivor, an alias as an alias of its parent's survivor, and a native alias with its parent's flag |
| RoundTrip.DocumentRoundTrip | bot.cpp:148-268 | for a table of built-in or typed commands and aliases of full commands: reading the written document into the built-in tables throws nothing; every command comes back as its survivor and every alias as an alias of its parent's survivor; a native alias gets its parent's flag back; the built-in commands are kept and no other name appears |
| RoundTrip.RecordsAvoid | bot.cpp:150-183 | reading records none of which names `n` with a known type or lists it as an alias leaves `n` out of the commands |
| RoundTrip.DocumentAvoids | bot.cpp:187-268 | no record of the written document brings back a full native command: it has no record of its own, a group record carries no type, and no alias shares its name |
| RoundTrip.NativeLost | bot.cpp:148-268 | a full native command that the starting tables do not hold is missing after a write and a read |
| RoundTrip.LoadedNativeLost | bot.cpp:148-185 | a stored record `foo` of type `native` loads a native command with no flag, which is missing after a write and a read |
| RoundTrip.BlankAliasesLost | bot.cpp:155-162 | the record written for a blank command, with its aliases attached, is skipped whole when read back |
| RoundTrip.IntroLoads | bot.cpp:148-185 | the stored record `intro` of type `announce` with alias `hi` loads as an audio command and an alias of it |
| RoundTrip.IntroWrites | bot.cpp:187-268 | that command and its alias are written back as the same single record |
| Chat.EmptyMessage | bot.cpp:507 | a fresh message record has empty texts and lists and no flags |
| Chat.KeyValueMeaning | bot.cpp:516-519 | a tag pair is read exactly when it holds `=` and does not end with it; the key is delimiter-free and followed by `=` at the start of the pair; the value is the non-empty, delimiter-free end of the pair after an `=` |
| Chat.KeyValueWellFormed | bot.cpp:516-519 | a pair holding the delimiter and not ending with it is read |
| Chat.KeyValueKey | bot.cpp:516 | the key is free of the delimiter and followed by it at the start of the pair |
| Chat.KeyValueValue | bot.cpp:518 | the value is a non-empty, delimiter-free end of the pair, preceded by the delimiter |
| Chat.LastWithKey | bot.cpp:520 | the index found is the last pair with that key |
| Chat.TagsLastWins | bot.cpp:512-521 | a key is tagged exactly when some pair carries it, and then holds the value of its last pair |
| Chat.ParseTags | bot.cpp:510-521 | the tag loop computes the tags of the pieces of the prefix |
| Chat.TagText | bot.cpp:522-523 | a tag's text when present, empty otherwise |
| Chat.FirstWithKey | bot.cpp:538 | the index found is the first pair with that name |
| Chat.BadgeStepVersions | bot.cpp:538 | a badge pair adds its version only when the name is new |
| Chat.BadgesFirstWins | bot.cpp:530-542 | a badge is held exactly when some pair names it, and then holds the version of its first pair |
| Chat.ParseBadges | bot.cpp:528-542 | the badge loop computes the badges of the pieces of the tag value |
| Chat.BoundsMeaning | bot.cpp:560-562 | an occurrence is skipped exactly when it is empty, starts with `-` or ends with `-`; its bounds are the parts before the first and after the last `-` |
| Chat.ReadingMeaning | bot.cpp:559-564 | skipped as above; a bound that is not a number fails with the conversion's error; otherwise the span is the numeric bounds |
| Chat.OccurrencesThrow | bot.cpp:563-564 | once a bound has failed, later occurrences change nothing |
| Chat.OccurrencesFail | bot.cpp:557-571 | reading an emote's occurrences fails exactly when some bound is not a number |
| Chat.OccurrencesSpan | bot.cpp:557-571 | the emotes already read are kept, at most one is added per occurrence, and every emote added carries the id and the bounds of one of the occurrences |
| Chat.OccurrenceReading | bot.cpp:559-564 | an occurrence written as two decimal unsigned ints around `-` reads back as the span between them |
| Chat.SpanEmotesAppend | bot.cpp:557-571 | the emotes of occurrences read in two runs are those of the first run followed by those of the second |
| Chat.SpanEmotesMeaning | bot.cpp:559-570 | every span reading gives an emote of the id and that span; every emote comes from a span reading; there is at most one per reading, and exactly one each when every reading is a span |
| Chat.OccurrencesCover | bot.cpp:557-571 | without a throw, the emotes are exactly those read before followed by the emote of each span, in the order of the occurrences |
| Chat.EntryStepCover | bot.cpp:553-571 | an entry throws exactly when it has an id and an occurrence with a bound that is not a number; otherwise it appends exactly the emotes of its spans |
| Chat.EmotesOfCover | bot.cpp:550-572 | the emote loop throws exactly when some entry does; otherwise its emotes are exactly those of every entry's spans, entry after entry |
| Chat.EntryEmotesMeaning | bot.cpp:555-570 | every span of an entry with an id gives the emote of that id and span |
| Chat.TagEmotesMeaning | bot.cpp:550-572 | every span of every entry with an id gives its emote among the emotes of the whole tag |
| Chat.SingleEntry | bot.cpp:551-556 | a tag `id:occurrences` without `/` is one entry, read as the occurrences of that id |
| Chat.OccurrencePair | bot.cpp:557-564 | the occurrences `s1-e1,s2-e2` read as the two spans, in the order written |
| Chat.SpanPair | bot.cpp:565-570 | two spans in a row push their two emotes, in that order |
| Chat.TwoOccurrences | bot.cpp:550-572 | one entry `id:s1-e1,s2-e2` gives exactly the two emotes of that id, in the order written |
| Chat.KappaEmotes | bot.cpp:550-572 | the tag `25:0-4,6-10` gives exactly two emotes of id 25, from 0 to 4 and from 6 to 10 |
| Chat.ReadOccurrence | bot.cpp:559-564 | one occurrence is read as its reading |
| Chat.ReadOccurrences | bot.cpp:557-571 | the occurrence loop computes the fold over the readings |
| Chat.ParseEmotes | bot.cpp:550-572 | the emote loop computes the emotes of the pieces of the tag value |
| Chat.EmotesThrow | bot.cpp:551-572 | once an entry has failed, later entries change nothing |
| Chat.InsertByStart | bot.cpp:573 | inserting adds exactly the one emote |
| Chat.InsertByStartSorted | bot.cpp:573 | inserting into a start-ordered list keeps it start-ordered |
| Chat.SortByStart | bot.cpp:573 | the sorted emotes are ordered by start and are a permutation of the input |
| Chat.ActionOf | bot.cpp:606-611 | a line is an action exactly when its trimmed text starts with `\001ACTION`; otherwise the text is the trimmed line |
| Chat.ActionText | bot.cpp:607-609 | the action text is the trimmed slice after the marker, up to the closing `\001` when there is one |
| Chat.ActionClose | bot.cpp:609 | the closing `\001` is either absent or past the marker |
| Chat.Wrap32 | bot.cpp:617 | unsigned 32-bit arithmetic: the value modulo 2^32, unchanged when in range |
| Chat.EmoteName | bot.cpp:617 | an emote's name is never longer than the text |
| Chat.EmoteNameInRange | bot.cpp:617 | for bounds within the text, the name is the text from start to end inclusive |
| Chat.EmoteNamePastEnd | bot.cpp:617 | an emote starting past the text has an empty name |
| Chat.WordTwice | bot.cpp:617 | over a word written twice around a space, the spans of the two copies are both named that word |
| Chat.KappaNames | bot.cpp:617 | over `Kappa Kappa`, the spans from 0 to 4 and from 6 to 10 are both named `Kappa` |
| Chat.KappaKappa | bot.cpp:548-619 | the tag `25:0-4,6-10` over `Kappa Kappa` gives two emotes of id 25, from 0 to 4 and from 6 to 10, both named `Kappa` |
| Chat.NameEmotes | bot.cpp:614-621 | the loop names every emote and counts the emote characters |
| Chat.TextWallWithoutEmotes | bot.cpp:622 | without emotes, a wall of text is text longer than the threshold |
| Line.HeaderMeaning | bot.cpp:507-574 | sender and color come from their tags; broadcaster and moderator hold exactly with badge version `1`; emotes are start-ordered, are a permutation of the emotes of every span of the tag, and are empty without the tag |
| Line.HeaderFails | bot.cpp:548-572 | a header fails exactly when its emotes tag has an entry with an id and an occurrence whose bound is not a number |
| Line.ReadHeader | bot.cpp:507-574 | the tag, badge and emote loops compute the header, or the conversion error when a bound is not a number |
| Line.LoginMeaning | bot.cpp:580-584 | there is a login exactly when the source is non-empty and does not start with a space; it is the start of the source up to the first `!` or space |
| Line.CommandMeaning | bot.cpp:593-599 | a line is a command exactly when it starts with `!`; the name runs up to the first space; the argument is the trimmed rest |
| Dispatch.DecideMeaning | bot.cpp:667-678 | a command runs exactly when it is known and either unprotected or asked for by a privileged viewer; it is denied exactly when it is known, protected and the viewer unprivileged; the command used carries the line's text as its message when there is one |
| Dispatch.PickVideo | bot.cpp:780-791 | no videos, no play; otherwise one of the listed videos is played by its path in the directory, and only a listing beyond `INT_MAX` fails |
| Dispatch.WithoutAt | bot.cpp:859 | the shoutout target holds no `@` |
| Dispatch.WithoutAtKeeps | bot.cpp:859 | removing `@` leaves text without one unchanged and is idempotent |
| Dispatch.VolumeOutcomeOf | bot.cpp:916-931 | the request sets the volume exactly when it parses; otherwise the failure is reported as "Failed to adjust volume: " and the reason |
| Dispatch.VolumeRequestRefusals | bot.cpp:920-924 | an empty message is refused for the missing volume; one without a space for the missing duration; every refusal is one of the three errors |
| Dispatch.VolumeRequestAccepted | bot.cpp:920-924 | an accepted request is a volume, one space and a duration, each read as an unsigned number |
| Dispatch.VolumeRoundTrip | bot.cpp:920-924 | a volume and a duration written in decimal with a space between are read back as themselves |
| Dispatch.AliasActsAsParent | bot.cpp:682-750 | an alias has the effect of the command it was made from, provided a native alias shares its parent's flag |
| Dispatch.SavedNativeAliasFails | bot.cpp:694 | after the tables are written out, a native alias that is not a full native command fails on the flag lookup |
| Dispatch.UptimeShowsTotalTime | bot.cpp:108-109 | with the built-in declarations, the uptime command shows the total time and the total-time command the uptime |
| Dispatch.EffectReadsMessage | bot.cpp:688-748 | every effect that reads the command's message reads it unchanged, or without `@` for a shoutout |
| Dispatch.LineTextReachesEffect | bot.cpp:670 | when the line has text and the command runs, the effect reads that text |
| Dispatch.HostNoticeMeaning | bot.cpp:760-770 | a notice is handled exactly when it says "is now hosting you." and does not start with a space; the host is its first word |
| Dispatch.TruncatedMeaning | bot.cpp:889-891 | `duration_cast` truncates toward zero: the remainder is smaller than the divisor and has the dividend's sign |
| Dispatch.UptimePartsMeaning | bot.cpp:886-891 | hours, minutes and seconds give back the duration (plus the history, for the total time) to within a second; minutes and seconds are below sixty in size; all share the duration's sign |
| Dispatch.Stamped | bot.cpp:853 | each line is prefixed by the date and a space, in order |
| Dispatch.StampedBody | bot.cpp:853 | lines joined with a newline, the date and a space split back into the first line and the rest stamped |
| Dispatch.StampedLines | bot.cpp:853-854 | the same, with a newline-free prefix before the first line |
| Dispatch.PanicLines | bot.cpp:852-854 | the panic text's lines are the date, the text's first line, and each further line prefixed by the date |
| Dispatch.ListingsMeaning | bot.cpp:793-806 | a command is listed exactly when it is visited and is neither an alias nor protected, with its name, description and the names of its aliases |
| Dispatch.ListingsCount | bot.cpp:793-806 | visiting each name once, the listing has one row per listed name |
| Dispatch.ListingsCover | bot.cpp:793-806 | visiting every name once, every command that is neither an alias nor protected is listed, every row comes from such a command, and there is one row per such command |
| Dispatch.CommandList | bot.cpp:793-806 | the loop builds the listing of the visited commands; when every name is visited once, every command neither an alias nor protected gets exactly one row |
| Viewers.Unknown | bot.cpp:480 | a viewer seen for the first time has no attributes set |
| Viewers.AttributesDefaults | bot.cpp:309-314 | a missing `commands` member reads as true; missing `welcomed` and `bot` members read as false |
| Viewers.RecordRoundTrip | bot.cpp:328-332 | a saved record reads back as the attributes, with the welcome cleared on a reset |
| Viewers.SaveLoadRoundTrip | bot.cpp:287-335 | loading a saved document gives back every viewer with the same attributes, with the welcome cleared on a reset |
| Viewers.Load | bot.cpp:306-317 | loading succeeds exactly when the file parsed; each viewer of the document overrides the one held |
| Viewers.ReadOver | bot.cpp:307-315 | the loop's result is the viewers held, overridden by the viewers read |
| Viewers.Save | bot.cpp:325-334 | the loop writes the record of every viewer |
| Viewers.ArriveMeaning | bot.cpp:474-483 | the speaker is recorded, with no attributes when new, and nobody else changes; a lookup starts exactly when the speaker is neither a bot nor welcomed and an arrival sound is set |
| Viewers.WelcomedOnce | bot.cpp:476 | once welcomed, a viewer arriving again starts no lookup and changes nothing |
| Viewers.WelcomePersists | bot.cpp:493-494 | a welcome survives saving and loading back; after a save with a reset, the viewer is due a welcome again |
| Network.Gets | globals.h:185-200 | the GET requests among the calls, in order |
| Network.GetsAppend | globals.h:185-200 | the GET requests of two runs of calls are those of the first, then those of the second |
| Network.GetKeepsCoherent | globals.h:185-200 | queueing a GET keeps the queue coherent: it is sent at once only when the queue was empty |
| Network.OtherKeepsCoherent | globals.h:201-213 | POST and PATCH are sent at once and leave the queue alone |
| Network.CompleteKeepsCoherent | globals.h:192-195 | a finished GET is popped and the next one, if any, is sent |
| Network.Sequencer.constructor | globals.h:173 | the queue starts empty, with nothing sent |
| Network.Sequencer.Request | globals.h:175-215 | a GET is queued, and sent only when the queue was empty; any other call is sent at once; the queue stays coherent |
| Network.Sequencer.Complete | globals.h:192-195 | the head is popped and the new head, if any, is sent |
| Network.InFlightIsHead | globals.h:189-198 | while the queue is non-empty, exactly one GET is in flight and it is the head |
| Network.IdleMeansNothingOutstanding | globals.h:192-197 | with an empty queue, every GET requested has been sent and has finished |
| Celeste.ShowLineEvents | bot.cpp:603-626 | a shown line emits at most an arrival lookup and a wall announcement, then the message, last |
| Celeste.LookupsShape | bot.cpp:603 | a shown line starts at most one lookup, an arrival lookup |
| Celeste.DisplayShape | bot.cpp:613-625 | the display emits the message, preceded at most by a wall announcement |
| Celeste.ShowLineWall | bot.cpp:622 | the wall of text is announced exactly when the text, less its emote characters, exceeds the threshold |
| Celeste.ShowLineArrival | bot.cpp:603 | the broadcaster's lines change no viewer and start no arrival lookup; anyone else's line is an arrival |
| Celeste.ShownMeaning | bot.cpp:607-624 | the shown message carries the escaped text (which unescapes back), the action flag and every emote named from the text, and keeps the other fields |
| Celeste.RespondMeaning | bot.cpp:586-601 | apart from a hosting notice, a line starting with `!` is tried as a command with its trimmed argument, and any other line is shown |
| Celeste.AttemptMeaning | bot.cpp:594-603 | a command that runs only starts the requester's lookup; one that does not run is at most announced as denied, and the line is then shown |
| Celeste.HostNoticeEndsLine | bot.cpp:586-589 | a hosting notice from the system account is announced and nothing else happens |
| Celeste.UnreadableLineIgnored | bot.cpp:563-583 | a line whose emote bounds do not parse, or that has no login, changes nothing |
| Celeste.Bot.constructor | bot.cpp:97-112 | the tables are the fifteen declarations in order, and the viewers are the loaded attributes |
| Celeste.Bot.DeclareCommands | bot.cpp:97-111 | the run of declarations applies each in order |
| Celeste.Bot.DeclareCommand | bot.cpp:124-128 | both tables get the name only where it is free; nothing else changes |
| Celeste.Bot.DeserializeCommands | bot.cpp:148-185 | the tables become the read command list, up to a throw, and the lookup is returned |
| Celeste.Bot.SerializeCommands | bot.cpp:187-268 | the document returned and the flag table kept are those of the serialization; the command lookup is unchanged |
| Celeste.Bot.DispatchCommand | bot.cpp:667-758 | returns whether the command runs; a denial is announced; a command that runs starts the requester's lookup |
| Celeste.Bot.CommandRecognized | bot.cpp:681-755 | once the requester is known, the command's effect is performed |
| Celeste.Bot.DispatchChatNotification | bot.cpp:760-770 | a hosting notice is announced with the host sound, and handled exactly then |
| Celeste.Bot.DispatchArrival | bot.cpp:472-483 | the viewers and the lookups are those of the arrival |
| Celeste.Bot.ArrivalRecognized | bot.cpp:487-495 | when due, the arrival is announced under the viewer's display name with the arrival sound, the viewer's login marked welcomed and the attributes saved; an unknown login saves nothing |
| Celeste.Bot.LoadViewerAttributes | bot.cpp:287-318 | the viewers become the loaded ones; succeeds exactly when the file parsed |
| Celeste.Bot.SaveViewerAttributes | bot.cpp:320-335 | the document saved holds every viewer, with welcomes cleared on a reset |
| Celeste.Bot.DisplayLine | bot.cpp:613-626 | the display events of the line are emitted |
| Celeste.Bot.ShowChatLine | bot.cpp:603-626 | the arrival and the display of the line take place |
| Celeste.Bot.RespondTo | bot.cpp:586-627 | a line from a known login is handled as a notice, a command or a shown line |
| Celeste.Bot.ReplyTo | bot.cpp:593-627 | a line that is not a hosting notice is tried as a command or shown |
| Celeste.Bot.TryCommand | bot.cpp:594-603 | a `!command` is dispatched, and shown when it does not run |
| Celeste.Bot.ParseChatMessage | bot.cpp:501-627 | a chat line's whole outcome on the viewers and the signals is that of handling the line |

## Left out

- File I/O is not modelled: opening, reading and writing the command list and the viewer attributes file. The parsed document is a parameter (`Option<Json>`, missing when the file does not parse), and the saved document is a result.
- The network is not modelled: HTTP requests and their replies. A request is a `Call` value, and what a reply would carry (follow dates, stream start times) is a parameter.
- The following are not modelled: Qt signals and slots beyond the order of the emitted events; timers (`inactivityClock`, the help and inactivity clocks); media playback; the vibe keeper; `Print` diagnostics.
- Random draws are not modelled. `Random::Bounded` returns some value in range, and `File::List::Random` and the denied-command video are not modelled. The denial event carries the command's name, as the printed notice does.
- `DownloadBadgeIcon` and `DownloadEmote` are not modelled. Badge icon paths are a parameter (`badgeIcons`), and an emote's path is the emote directory joined with its id and `.png`.
- The administrator check and the raid delay in the arrival callback are not modelled. They are the `announce` parameter of `ArrivalRecognized`.
- The follow age, stream title, stream category, emote-only toggle and shoutout lookups reach the Twitch API. They are modelled only as the effect values that start them.
- `QSettings` is not modelled: settings are the `Settings` value.
- `StringView::Take`, `First` and `Last` are not part of this model. Their definitions are stated above.
- `Chat::Message::Privileged` is not part of this model. It is taken to be broadcaster or moderator.
- `Viewer::Attributes` `{}` is not part of this model. It is taken to set no attribute.
- `RoundTrip.DocumentRoundTrip` does not cover an alias whose parent is itself an alias (bot.cpp:179 makes one when a record names an alias). Its group is written as a record without a type, named for the parent alias. Whether it comes back depends on whether that parent alias is read before that record, which depends on the leftover order.
- `Dispatch.CommandList`: a row's alias names are a set. The order and any repeats of `Children()` are not kept, because its definition is not part of this model.
- `Chat.SortByStart`: `std::sort` is not stable, and the model sorts stably. Only the start order and the permutation are claimed, which every `std::sort` result satisfies. The `<` of `Chat::Emote` is taken to compare start positions, as that of `Media::Emote` does; chat.h, which defines it, is not part of this model.
- `Dispatch.PickVideo`: `absoluteFilePath` is taken as the directory, `/`, and the file name. No path normalisation is modelled.
- `Dispatch.PanicLines`: the `QString::arg` substitution of the requester's name into the panic file is not modelled. The text is taken after substitution.
- Unicode is not modelled: strings are sequences of characters, with no UTF-16 surrogates or normalisation. `Text.IsSpace` lists the characters `QChar::isSpace` accepts (the Unicode separators and the control characters from tab to carriage return), written out by hand.
- `LoadRoasts`, `LoadBadgeIconURLs`, `StartClocks`, `Ping`, the redemption, subscription, raid and cheer handlers, `ToggleVibeKeeper`, `EmoteOnly`, `StreamTitle` and `StreamCategory` are not modelled. They are outside the modelled core: each only forwards to media, timers or the network.
