/**
 * The command tables of the bot (bot.cpp): `commands`, the command lookup keyed
 * by name, and `nativeCommandFlags`, which built-in behaviour each native
 * command runs. This module holds the built-in declarations made by the Bot
 * constructor, Bot::DeclareCommand and the reading of the persisted command
 * list, Bot::DeserializeCommands.
 */
module Registry {
  import opened Wrappers
  import opened Entities
  import opened Json

  /** NativeCommandFlag: the built-in behaviour a native command runs. */
  datatype NativeFlag =
    | Agenda | Category | Title | CommandList | EmoteOnly | Followage | Html | Panic
    | Shoutout | Song | Timezone | Uptime | TotalTime | Vibe | Volume

  /** The bot's `commands` and `nativeCommandFlags` members. */
  datatype Tables = Tables(commands: map<string, Command>, flags: map<string, NativeFlag>)

  function NoTables(): Tables {
    Tables(map[], map[])
  }

  /** `unordered_map::insert` and `try_emplace`: the entry is added only when the key is free. */
  function Insert<V>(m: map<string, V>, key: string, value: V): map<string, V>
  {
    if key in m then m else m[key := value]
  }

  /** Inserting never replaces an entry: the key is added and every other entry is kept. */
  lemma InsertMeaning<V>(m: map<string, V>, key: string, value: V)
    ensures Insert(m, key, value).Keys == m.Keys + {key}
    ensures forall k :: k in m ==> Insert(m, key, value)[k] == m[k]
    ensures key !in m ==> Insert(m, key, value)[key] == value
  {
  }

  /** Bot::DeclareCommand: the command and its flag are inserted under the command's name. */
  function Declare(t: Tables, command: Command, flag: NativeFlag): Tables
  {
    Tables(Insert(t.commands, command.name, command), Insert(t.flags, command.name, flag))
  }

  /**
   * Declaring adds the name to both tables, keeps every entry already present
   * and stores the command and the flag only where the name was free.
   */
  lemma DeclareMeaning(t: Tables, command: Command, flag: NativeFlag)
    ensures Declare(t, command, flag).commands.Keys == t.commands.Keys + {command.name}
    ensures Declare(t, command, flag).flags.Keys == t.flags.Keys + {command.name}
    ensures forall n :: n in t.commands ==> Declare(t, command, flag).commands[n] == t.commands[n]
    ensures forall n :: n in t.flags ==> Declare(t, command, flag).flags[n] == t.flags[n]
    ensures command.name !in t.commands ==> Declare(t, command, flag).commands[command.name] == command
    ensures command.name !in t.flags ==> Declare(t, command, flag).flags[command.name] == flag
  {
    InsertMeaning(t.commands, command.name, command);
    InsertMeaning(t.flags, command.name, flag);
  }

  /**
   * The names under which the built-in commands answer; each is a setting of
   * the bot (Agenda, StreamCategory, ... VibeVolume under the commands
   * category) with the default given in DefaultNames.
   */
  datatype CommandNames = CommandNames(
    agenda: string, category: string, title: string, commands: string, emote: string,
    followage: string, html: string, panic: string, shoutout: string, song: string,
    timezone: string, uptime: string, totalTime: string, vibe: string, volume: string)
  {
    /** The names in the order the constructor declares them. */
    function List(): seq<string> {
      [agenda, category, title, commands, emote, followage, html, panic, shoutout, song,
       timezone, uptime, totalTime, vibe, volume]
    }

    /** No two built-in commands were configured to share a name. */
    predicate Distinct() {
      forall j, k :: 0 <= j < k < |List()| ==> List()[j] != List()[k]
    }
  }

  /** The settings' fallback names. */
  function DefaultNames(): CommandNames {
    CommandNames("agenda", "category", "title", "commands", "emote", "followage", "html", "panic",
                 "so", "song", "timezone", "uptime", "totaltime", "vibe", "volume")
  }

  /** The fallback names are pairwise different. */
  lemma DefaultNamesDistinct()
    ensures DefaultNames().Distinct()
  {
  }

  /**
   * The flags of the protected built-in commands: those that change the stream,
   * the chat mode or the bot itself.
   */
  function ProtectedFlags(): set<NativeFlag> {
    {Agenda, Category, Title, EmoteOnly, Panic, Vibe, Volume}
  }

  /** The descriptions the constructor declares, in its order (bot.cpp:97-111). */
  const D0: string := "Set the agenda of the stream, displayed in the header of the chat window"
  const D1: string := "Change the stream category"
  const D2: string := "Change the stream title"
  const D3: string := "List all of the commands Celeste recognizes"
  const D4: string := "Toggle emote only mode in chat"
  const D5: string := "Show how long a user has followed the broadcaster"
  const D6: string := "Format the chat message as HTML"
  const D7: string := "Crash Celeste"
  const D8: string := "Call attention to another streamer's channel"
  const D9: string := "Show the title, album, and artist of the song that is currently playing"
  const D10: string := "Display the timezone of the system the bot is running on"
  const D11: string := "Show how long the bot has been connected"
  const D12: string := "Show how many total hours stream has ever been live"
  const D13: string := "Start the playlist of music for the stream"
  const D14: string := "Adjust the volume of the vibe keeper"
  function Descriptions(): seq<string> {
    [D0, D1, D2, D3, D4, D5, D6, D7, D8, D9, D10, D11, D12, D13, D14]
  }

  /**
   * The flags the constructor declares, in its order, exactly as written: the
   * uptime command is given the TOTAL_TIME flag and the total-time command the
   * UPTIME flag.
   */
  function DeclaredFlagList(): seq<NativeFlag> {
    [Agenda, Category, Title, CommandList, EmoteOnly, Followage, Html, Panic,
     Shoutout, Song, Timezone, TotalTime, Uptime, Vibe, Volume]
  }

  /** Which of the constructor's declarations are protected, in its order. */
  function ProtectList(): seq<bool> {
    [true, true, true, false, true, false, false, true, false, false, false, false, false, true, true]
  }

  /** The fifteen declarations of the Bot constructor (bot.cpp:97-111), in order. */
  function Declarations(names: CommandNames): seq<(Command, NativeFlag)>
  {
    seq(15, i requires 0 <= i < 15 =>
      (NewCommand(names.List()[i], Descriptions()[i], Native, ProtectList()[i]), DeclaredFlagList()[i]))
  }

  /** The constructor declares the configured names, in the order of the list. */
  lemma DeclarationsNames(names: CommandNames)
    ensures |Declarations(names)| == |names.List()|
    ensures forall i :: 0 <= i < |names.List()| ==> Declarations(names)[i].0.name == names.List()[i]
  {
  }

  /** DeclareCommand applied to each declaration in turn. */
  function DeclareAll(t: Tables, ds: seq<(Command, NativeFlag)>): Tables
    decreases |ds|
  {
    if ds == [] then t else DeclareAll(Declare(t, ds[0].0, ds[0].1), ds[1..])
  }

  /** The tables right after the Bot constructor's declarations. */
  function Declared(names: CommandNames): Tables {
    DeclareAll(NoTables(), Declarations(names))
  }

  /** The first declaration of `name` in `ds`, if any. */
  function FirstDeclaration(ds: seq<(Command, NativeFlag)>, name: string): (r: Option<(Command, NativeFlag)>)
    ensures r.Some? ==> r.value in ds && r.value.0.name == name
    decreases |ds|
  {
    if ds == [] then None
    else if ds[0].0.name == name then Some(ds[0])
    else FirstDeclaration(ds[1..], name)
  }

  /**
   * Declaring a list adds every name in it and keeps every entry already
   * present; a name that was free gets the command and the flag of its first
   * declaration.
   */
  lemma {:induction false} DeclareAllAt(t: Tables, ds: seq<(Command, NativeFlag)>, name: string)
    ensures name in DeclareAll(t, ds).commands <==> name in t.commands || FirstDeclaration(ds, name).Some?
    ensures name in DeclareAll(t, ds).flags <==> name in t.flags || FirstDeclaration(ds, name).Some?
    ensures name in t.commands ==> DeclareAll(t, ds).commands[name] == t.commands[name]
    ensures name in t.flags ==> DeclareAll(t, ds).flags[name] == t.flags[name]
    ensures name !in t.commands && FirstDeclaration(ds, name).Some? ==>
              DeclareAll(t, ds).commands[name] == FirstDeclaration(ds, name).value.0
    ensures name !in t.flags && FirstDeclaration(ds, name).Some? ==>
              DeclareAll(t, ds).flags[name] == FirstDeclaration(ds, name).value.1
    decreases |ds|
  {
    if ds != [] {
      DeclareMeaning(t, ds[0].0, ds[0].1);
      DeclareAllAt(Declare(t, ds[0].0, ds[0].1), ds[1..], name);
    }
  }

  /** In a list of pairwise different names, each declaration is the first of its name. */
  lemma {:induction false} FirstDeclarationOf(ds: seq<(Command, NativeFlag)>, i: nat)
    requires i < |ds|
    requires forall j, k :: 0 <= j < k < |ds| ==> ds[j].0.name != ds[k].0.name
    ensures FirstDeclaration(ds, ds[i].0.name) == Some(ds[i])
    decreases i
  {
    if i > 0 {
      assert ds[0].0.name != ds[i].0.name;
      assert ds[1..][i - 1] == ds[i];
      FirstDeclarationOf(ds[1..], i - 1);
    }
  }

  /** Each declaration is of a plain native command, protected exactly when its flag is. */
  lemma DeclarationsNative(names: CommandNames, i: nat)
    requires i < |Declarations(names)|
    ensures var d := Declarations(names)[i];
            d.0.kind == Native && !d.0.IsAlias() && !d.0.random && d.0.path == [] && d.0.message == []
    ensures Declarations(names)[i].0.protect <==> Declarations(names)[i].1 in ProtectedFlags()
  {
  }

  /** With distinct names, the constructor's tables have exactly the configured names as keys. */
  lemma DeclaredKeys(names: CommandNames, n: string)
    requires names.Distinct()
    ensures n in Declared(names).commands <==> n in names.List()
    ensures n in Declared(names).flags <==> n in names.List()
  {
    var ds := Declarations(names);
    DeclarationsNames(names);
    DeclareAllAt(NoTables(), ds, n);
    if n in names.List() {
      var i :| 0 <= i < |ds| && names.List()[i] == n;
      FirstDeclarationOf(ds, i);
    }
  }

  /** With distinct names, the i-th configured name holds the i-th declaration's command and flag. */
  lemma DeclaredAt(names: CommandNames, i: nat)
    requires names.Distinct() && i < |names.List()|
    ensures names.List()[i] in Declared(names).commands && names.List()[i] in Declared(names).flags
    ensures Declared(names).commands[names.List()[i]] == Declarations(names)[i].0
    ensures Declared(names).flags[names.List()[i]] == Declarations(names)[i].1
  {
    var ds := Declarations(names);
    DeclarationsNames(names);
    FirstDeclarationOf(ds, i);
    DeclareAllAt(NoTables(), ds, names.List()[i]);
  }

  /**
   * With distinct names, the constructor's tables have exactly the configured
   * names as keys; each holds a plain native command under its own name,
   * protected exactly when its flag is protected, and the flag declared with it.
   */
  lemma DeclaredTables(names: CommandNames)
    requires names.Distinct()
    ensures Declared(names).commands.Keys == Declared(names).flags.Keys == set n | n in names.List()
    ensures forall i :: 0 <= i < |names.List()| ==>
              Declared(names).commands[names.List()[i]] == Declarations(names)[i].0 &&
              Declared(names).flags[names.List()[i]] == Declarations(names)[i].1
    ensures forall n :: n in Declared(names).commands ==>
              var c := Declared(names).commands[n];
              c.name == n && c.kind == Native && !c.IsAlias() && !c.random && c.path == [] && c.message == []
              && (c.protect <==> Declared(names).flags[n] in ProtectedFlags())
  {
    forall n
      ensures n in Declared(names).commands <==> n in names.List()
      ensures n in Declared(names).flags <==> n in names.List()
    {
      DeclaredKeys(names, n);
    }
    forall i | 0 <= i < |names.List()|
      ensures Declared(names).commands[names.List()[i]] == Declarations(names)[i].0
      ensures Declared(names).flags[names.List()[i]] == Declarations(names)[i].1
    {
      DeclaredAt(names, i);
    }
    forall n | n in Declared(names).commands
      ensures var c := Declared(names).commands[n];
              c.name == n && c.kind == Native && !c.IsAlias() && !c.random && c.path == [] && c.message == []
              && (c.protect <==> Declared(names).flags[n] in ProtectedFlags())
    {
      DeclaredKeys(names, n);
      var i :| 0 <= i < |names.List()| && names.List()[i] == n;
      DeclaredAt(names, i);
      DeclarationsNames(names);
      DeclarationsNative(names, i);
    }
  }

  /**
   * As written, the uptime command runs the total-time behaviour and the
   * total-time command the uptime behaviour; the command list and panic
   * commands run their own.
   */
  lemma DeclaredFlags(names: CommandNames)
    requires names.Distinct()
    ensures names.uptime in Declared(names).flags && names.totalTime in Declared(names).flags
    ensures names.commands in Declared(names).flags && names.panic in Declared(names).flags
    ensures Declared(names).flags[names.uptime] == TotalTime
    ensures Declared(names).flags[names.totalTime] == Uptime
    ensures Declared(names).flags[names.commands] == CommandList
    ensures Declared(names).flags[names.panic] == Panic
  {
    DeclaredAt(names, 11);
    DeclaredAt(names, 12);
    DeclaredAt(names, 3);
    DeclaredAt(names, 7);
  }

  /** COMMAND_TYPES: the type names a command list may use, and the types they stand for. */
  function TypeNamed(name: string): (r: Option<CommandType>)
    ensures r.Some? ==> r.value != Blank
  {
    if name == "native" then Some(Native)
    else if name == "video" then Some(Video)
    else if name == "announce" then Some(Audio)
    else if name == "pulsar" then Some(Pulsar)
    else None
  }

  /**
   * The command a record of the list describes (bot.cpp:163-171): the type is
   * the record's, a missing "random" or "protected" member reads as false, a
   * missing "message" as the empty text.
   */
  function RecordCommand(name: string, fields: map<string, Json>, kind: CommandType): Command
  {
    FullCommand(
      name,
      AsString(Value(fields, "description")),
      kind,
      if "random" in fields then AsBool(fields["random"]) else false,
      AsString(Value(fields, "path")),
      if "message" in fields then AsString(fields["message"]) else [],
      if "protected" in fields then AsBool(fields["protected"]) else false)
  }

  /**
   * The tables while a command list is read, and whether a table lookup has
   * thrown std::out_of_range; once it has, the rest of the list is not read
   * and the tables stay as they were at the throw.
   */
  datatype Load = Load(tables: Tables, threw: bool)

  /**
   * One alias of the record for `name` (bot.cpp:177-180): an alias command made
   * from the command under `name` is added unless the alias is taken, and when
   * the command under the alias is native it is given the flag of `name`,
   * which throws when `name` has no flag.
   */
  function AliasStep(l: Load, name: string, alias: Json): (r: Load)
    requires name in l.tables.commands
    ensures name in r.tables.commands
  {
    if l.threw then l
    else
      var a := AsString(alias);
      var commands := Insert(l.tables.commands, a, AliasOf(a, name, l.tables.commands[name]));
      if commands[a].kind != Native then Load(Tables(commands, l.tables.flags), false)
      else if name !in l.tables.flags then Load(Tables(commands, l.tables.flags), true)
      else Load(Tables(commands, Insert(l.tables.flags, a, l.tables.flags[name])), false)
  }

  /** The aliases of one record, in order. */
  function Aliases(l: Load, name: string, aliases: seq<Json>): (r: Load)
    requires name in l.tables.commands
    ensures name in r.tables.commands
    decreases |aliases|
  {
    if aliases == [] then l
    else AliasStep(Aliases(l, name, aliases[..|aliases| - 1]), name, aliases[|aliases| - 1])
  }

  /**
   * One record of the list (bot.cpp:152-182): a name that is not yet a command
   * becomes one when the record's type is known, and the record is skipped,
   * aliases and all, when it is not; then the aliases are read.
   */
  function RecordStep(l: Load, record: Json): Load
  {
    if l.threw then l
    else
      var fields := AsObject(record);
      var name := AsString(Value(fields, "command"));
      var kind := TypeNamed(AsString(Value(fields, "type")));
      if name !in l.tables.commands && kind.None? then l
      else
        var t := if name in l.tables.commands then l.tables
                 else l.tables.(commands := l.tables.commands[name := RecordCommand(name, fields, kind.value)]);
        if "aliases" in fields then Aliases(Load(t, false), name, AsArray(fields["aliases"]))
        else Load(t, false)
  }

  /** The records of the list, in order. */
  function Records(l: Load, records: seq<Json>): Load
    decreases |records|
  {
    if records == [] then l
    else RecordStep(Records(l, records[..|records| - 1]), records[|records| - 1])
  }

  /** Bot::DeserializeCommands on a command-list document, starting from the tables `t`. */
  function Deserialized(t: Tables, document: Json): Load {
    Records(Load(t, false), AsArray(document))
  }

  lemma AliasesSnoc(l: Load, name: string, done: seq<Json>, alias: Json)
    requires name in l.tables.commands
    ensures Aliases(l, name, done + [alias]) == AliasStep(Aliases(l, name, done), name, alias)
  {
    assert (done + [alias])[..|done|] == done;
  }

  lemma RecordsSnoc(l: Load, done: seq<Json>, record: Json)
    ensures Records(l, done + [record]) == RecordStep(Records(l, done), record)
  {
    assert (done + [record])[..|done|] == done;
  }

  /** Once a lookup has thrown, no further alias changes anything. */
  lemma {:induction false} AliasesThrow(l: Load, name: string, done: seq<Json>, rest: seq<Json>)
    requires name in l.tables.commands && Aliases(l, name, done).threw
    ensures Aliases(l, name, done + rest) == Aliases(l, name, done)
    decreases |rest|
  {
    if rest == [] {
      assert done + rest == done;
    } else {
      var front := rest[..|rest| - 1];
      assert done + rest == (done + front) + [rest[|rest| - 1]];
      AliasesThrow(l, name, done, front);
      AliasesSnoc(l, name, done + front, rest[|rest| - 1]);
    }
  }

  /** Once a lookup has thrown, no further record changes anything. */
  lemma {:induction false} RecordsThrow(l: Load, done: seq<Json>, rest: seq<Json>)
    requires Records(l, done).threw
    ensures Records(l, done + rest) == Records(l, done)
    decreases |rest|
  {
    if rest == [] {
      assert done + rest == done;
    } else {
      var front := rest[..|rest| - 1];
      assert done + rest == (done + front) + [rest[|rest| - 1]];
      RecordsThrow(l, done, front);
      RecordsSnoc(l, done + front, rest[|rest| - 1]);
    }
  }

  /** The alias loop of Bot::DeserializeCommands. */
  method ReadAliases(t: Tables, name: string, aliases: seq<Json>) returns (l: Load)
    requires name in t.commands
    ensures l == Aliases(Load(t, false), name, aliases)
  {
    var commands, flags := t.commands, t.flags;
    var i := 0;
    while i < |aliases|
      invariant 0 <= i <= |aliases|
      invariant name in commands
      invariant Aliases(Load(t, false), name, aliases[..i]) == Load(Tables(commands, flags), false)
    {
      var alias := AsString(aliases[i]);
      AliasesSnoc(Load(t, false), name, aliases[..i], aliases[i]);
      assert aliases[..i + 1] == aliases[..i] + [aliases[i]];
      if alias !in commands {
        commands := commands[alias := AliasOf(alias, name, commands[name])];
      }
      if commands[alias].kind == Native {
        if name !in flags {
          l := Load(Tables(commands, flags), true);
          AliasesThrow(Load(t, false), name, aliases[..i + 1], aliases[i + 1..]);
          assert aliases[..i + 1] + aliases[i + 1..] == aliases;
          return;
        }
        if alias !in flags {
          flags := flags[alias := flags[name]];
        }
      }
      i := i + 1;
    }
    assert aliases[..i] == aliases;
    l := Load(Tables(commands, flags), false);
  }

  /** One pass of the record loop of Bot::DeserializeCommands. */
  method ReadRecord(t: Tables, record: Json) returns (l: Load)
    ensures l == RecordStep(Load(t, false), record)
  {
    var fields := AsObject(record);
    var name := AsString(Value(fields, "command"));
    var next := t;
    if name !in t.commands {
      var kind := TypeNamed(AsString(Value(fields, "type")));
      if kind.None? {
        return Load(t, false);
      }
      next := t.(commands := t.commands[name := RecordCommand(name, fields, kind.value)]);
    }
    if "aliases" in fields {
      l := ReadAliases(next, name, AsArray(fields["aliases"]));
    } else {
      l := Load(next, false);
    }
  }

  /** One more record read after an unthrown prefix. */
  lemma RecordsAdvance(t: Tables, records: seq<Json>, i: nat, l: Load, next: Load)
    requires i < |records| && !l.threw && Records(Load(t, false), records[..i]) == l
    requires next == RecordStep(l, records[i])
    ensures Records(Load(t, false), records[..i + 1]) == next
  {
    RecordsSnoc(Load(t, false), records[..i], records[i]);
    assert records[..i + 1] == records[..i] + [records[i]];
  }

  /** A record that throws ends the reading of the list. */
  lemma RecordsStop(l: Load, records: seq<Json>, i: nat)
    requires i <= |records| && Records(l, records[..i]).threw
    ensures Records(l, records) == Records(l, records[..i])
  {
    RecordsThrow(l, records[..i], records[i..]);
    assert records[..i] + records[i..] == records;
  }

  /**
   * Bot::DeserializeCommands: the records are read in order until one of them
   * throws; the result is the specification's, throw included.
   */
  method Deserialize(t: Tables, document: Json) returns (l: Load)
    ensures l == Deserialized(t, document)
  {
    var records := AsArray(document);
    l := Load(t, false);
    var i := 0;
    while i < |records|
      invariant 0 <= i <= |records|
      invariant !l.threw && Records(Load(t, false), records[..i]) == l
    {
      var next := ReadRecord(l.tables, records[i]);
      RecordsAdvance(t, records, i, l, next);
      l := next;
      if l.threw {
        RecordsStop(Load(t, false), records, i + 1);
        return;
      }
      i := i + 1;
    }
    assert records[..i] == records;
  }

  /** `after` keeps every command and flag of `before`, unchanged. */
  ghost predicate Extends(before: Tables, after: Tables) {
    && (forall n :: n in before.commands ==> n in after.commands && after.commands[n] == before.commands[n])
    && (forall n :: n in before.flags ==> n in after.flags && after.flags[n] == before.flags[n])
  }

  lemma ExtendsTransitive(a: Tables, b: Tables, c: Tables)
    requires Extends(a, b) && Extends(b, c)
    ensures Extends(a, c)
  {
  }

  /**
   * One alias: when the alias is free it becomes an alias of the command under
   * `name`; the step throws exactly when the command now under the alias is
   * native and `name` has no flag; otherwise a native alias that had no flag
   * gets the flag of `name`. Nothing present before is replaced.
   */
  lemma AliasStepMeaning(l: Load, name: string, alias: Json)
    requires !l.threw && name in l.tables.commands
    ensures var r := AliasStep(l, name, alias);
            var a := AsString(alias);
            && Extends(l.tables, r.tables)
            && a in r.tables.commands
            && (a !in l.tables.commands ==> r.tables.commands[a] == AliasOf(a, name, l.tables.commands[name]))
            && (r.threw <==> r.tables.commands[a].kind == Native && name !in l.tables.flags)
            && (!r.threw && r.tables.commands[a].kind == Native ==> a in r.tables.flags)
            && (!r.threw && r.tables.commands[a].kind == Native && a !in l.tables.flags ==>
                  r.tables.flags[a] == l.tables.flags[name])
  {
    var a := AsString(alias);
    InsertMeaning(l.tables.commands, a, AliasOf(a, name, l.tables.commands[name]));
    InsertMeaning(l.tables.flags, a, if name in l.tables.flags then l.tables.flags[name] else Agenda);
  }

  /** Reading aliases never replaces a command or a flag. */
  lemma {:induction false} AliasesExtend(l: Load, name: string, aliases: seq<Json>)
    requires name in l.tables.commands
    ensures Extends(l.tables, Aliases(l, name, aliases).tables)
    decreases |aliases|
  {
    if aliases != [] {
      var front := Aliases(l, name, aliases[..|aliases| - 1]);
      AliasesExtend(l, name, aliases[..|aliases| - 1]);
      if !front.threw {
        AliasStepMeaning(front, name, aliases[|aliases| - 1]);
        ExtendsTransitive(l.tables, front.tables, Aliases(l, name, aliases).tables);
      }
    }
  }

  /**
   * One record: a record whose name is not yet a command and whose type is
   * unknown is skipped with its aliases; a record whose name is not yet a
   * command and whose type is known adds that command, with the record's
   * fields and defaults; and nothing present before is replaced.
   */
  lemma RecordStepMeaning(l: Load, record: Json)
    requires !l.threw
    ensures var fields := AsObject(record);
            var name := AsString(Value(fields, "command"));
            var kind := TypeNamed(AsString(Value(fields, "type")));
            var r := RecordStep(l, record);
            && Extends(l.tables, r.tables)
            && (name !in l.tables.commands && kind.None? ==> r == l)
            && (name !in l.tables.commands && kind.Some? ==>
                  name in r.tables.commands && r.tables.commands[name] == RecordCommand(name, fields, kind.value))
            && ("aliases" !in fields ==> !r.threw)
  {
    var fields := AsObject(record);
    var name := AsString(Value(fields, "command"));
    var kind := TypeNamed(AsString(Value(fields, "type")));
    if name in l.tables.commands || kind.Some? {
      var t := if name in l.tables.commands then l.tables
               else l.tables.(commands := l.tables.commands[name := RecordCommand(name, fields, kind.value)]);
      assert Extends(l.tables, t);
      if "aliases" in fields {
        AliasesExtend(Load(t, false), name, AsArray(fields["aliases"]));
        ExtendsTransitive(l.tables, t, RecordStep(l, record).tables);
      }
    }
  }

  /** Reading records never replaces a command or a flag. */
  lemma {:induction false} RecordsExtend(l: Load, records: seq<Json>)
    requires !l.threw
    ensures Extends(l.tables, Records(l, records).tables)
    decreases |records|
  {
    if records != [] {
      var front := Records(l, records[..|records| - 1]);
      RecordsExtend(l, records[..|records| - 1]);
      if !front.threw {
        RecordStepMeaning(front, records[|records| - 1]);
        ExtendsTransitive(l.tables, front.tables, Records(l, records).tables);
      }
    }
  }

  /**
   * Bot::DeserializeCommands never replaces a command or a flag that is
   * already known: the built-in commands keep their definitions whatever the
   * list says.
   */
  lemma DeserializeNeverOverwrites(t: Tables, document: Json)
    ensures forall n :: n in t.commands ==>
              n in Deserialized(t, document).tables.commands && Deserialized(t, document).tables.commands[n] == t.commands[n]
    ensures forall n :: n in t.flags ==>
              n in Deserialized(t, document).tables.flags && Deserialized(t, document).tables.flags[n] == t.flags[n]
  {
    RecordsExtend(Load(t, false), AsArray(document));
  }

  /**
   * A list whose record for a video command `clip` names a native command as
   * one of its aliases throws: the existing native command is kept under the
   * alias, and looking up the flag of `clip` fails.
   */
  lemma AliasOntoNativeThrows(names: CommandNames)
    requires names.Distinct() && "clip" !in names.List()
    ensures Deserialized(Declared(names), Array([Object(map[
              "command" := String("clip"), "type" := String("video"),
              "aliases" := Array([String(names.uptime)])])])).threw
  {
    var t := Declared(names);
    DeclaredAt(names, 11);
    DeclaredKeys(names, "clip");
    var record := Object(map["command" := String("clip"), "type" := String("video"),
                             "aliases" := Array([String(names.uptime)])]);
    var fields := AsObject(record);
    assert AsString(Value(fields, "command")) == "clip";
    assert TypeNamed(AsString(Value(fields, "type"))) == Some(Video);
    var t' := t.(commands := t.commands[String("clip").s := RecordCommand("clip", fields, Video)]);
    assert "clip" !in t.commands && "clip" !in t.flags;
    var aliases := AsArray(fields["aliases"]);
    assert aliases == [String(names.uptime)];
    AliasesSnoc(Load(t', false), "clip", [], String(names.uptime));
    assert Aliases(Load(t', false), "clip", aliases) == AliasStep(Load(t', false), "clip", String(names.uptime));
    assert t'.commands[names.uptime] == t.commands[names.uptime];
    assert AliasStep(Load(t', false), "clip", String(names.uptime)).threw;
    assert RecordStep(Load(t, false), record).threw;
    RecordsSnoc(Load(t, false), [], record);
    assert [] + [record] == [record];
  }
}
