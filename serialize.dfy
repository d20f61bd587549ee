/**
 * Bot::SerializeCommands (bot.cpp:187-268): the command lookup written back as
 * the JSON command list. Full commands that are not native become records,
 * aliases are gathered under the name of the command they were made from and
 * attached to its record, or written as a record of their own when that
 * command has none (a native command); the native flag table keeps only the
 * flags of the full native commands.
 *
 * The lookup is an unordered map, so the order in which its entries are
 * visited is not determined by the program: here it is the order of the
 * sequence `entries`. The leftover alias groups are written in the order in
 * which their parent name was first met.
 */
module Serialization {
  import opened Wrappers
  import opened Entities
  import opened Json
  import opened Registry

  /** The type name written for a command that gets a full record; none for native and blank ones. */
  function TypeName(kind: CommandType): Option<string> {
    match kind
    case Audio => Some("announce")
    case Video => Some("video")
    case Pulsar => Some("pulsar")
    case _ => None
  }

  /** The written type names are exactly the ones the reader maps back to the same type. */
  lemma TypeNameRoundTrip(kind: CommandType)
    ensures TypeName(kind).Some? ==> TypeNamed(TypeName(kind).value) == Some(kind)
    ensures TypeName(kind).None? <==> kind == Native || kind == Blank
    ensures kind != Native && kind != Blank ==> TypeName(kind).Some?
  {
  }

  /**
   * The record written for a full command (bot.cpp:200-227), before aliases
   * are attached: an announcement keeps every field, a video loses its
   * message, a pulsar keeps only its description and protection, and a blank
   * command only its name. Flags are written only when set and a message only
   * when not empty.
   */
  function RecordOf(c: Command): map<string, Json> {
    var base := map["command" := String(c.name)];
    match c.kind
    case Audio =>
      var o := base["type" := String("announce")]["description" := String(c.description)]["path" := String(c.path)];
      var o := if c.random then o["random" := Bool(true)] else o;
      var o := if c.message != [] then o["message" := String(c.message)] else o;
      if c.protect then o["protected" := Bool(true)] else o
    case Video =>
      var o := base["type" := String("video")]["description" := String(c.description)]["path" := String(c.path)];
      var o := if c.random then o["random" := Bool(true)] else o;
      if c.protect then o["protected" := Bool(true)] else o
    case Pulsar =>
      var o := base["type" := String("pulsar")]["description" := String(c.description)];
      if c.protect then o["protected" := Bool(true)] else o
    case _ => base
  }

  /**
   * What survives a write and a read of a full command's record: the fields
   * its type writes; the others come back as the reader's defaults.
   */
  function Survivor(c: Command): Command {
    match c.kind
    case Audio => c
    case Video => c.(message := [])
    case Pulsar => c.(random := false, path := [], message := [])
    case _ => c
  }

  /**
   * Reading back the record written for an announcement, video or pulsar
   * command whose name is free gives back the command as far as its type
   * writes it, and nothing else changes.
   */
  lemma RecordRoundTrip(c: Command, t: Tables)
    requires !c.IsAlias() && (c.kind == Audio || c.kind == Video || c.kind == Pulsar)
    requires c.name !in t.commands
    ensures RecordStep(Load(t, false), Object(RecordOf(c))) ==
            Load(t.(commands := t.commands[c.name := Survivor(c)]), false)
  {
    var fields := RecordOf(c);
    assert AsString(Value(fields, "command")) == c.name;
    TypeNameRoundTrip(c.kind);
    assert TypeNamed(AsString(Value(fields, "type"))) == Some(c.kind);
    assert "aliases" !in fields;
    RecordSurvives(c);
  }

  /** The command read from a full command's record is its survivor. */
  lemma RecordSurvives(c: Command)
    requires !c.IsAlias() && (c.kind == Audio || c.kind == Video || c.kind == Pulsar)
    ensures RecordCommand(c.name, RecordOf(c), c.kind) == Survivor(c)
  {
    var fields := RecordOf(c);
    match c.kind {
      case Audio =>
        assert AsString(Value(fields, "description")) == c.description && AsString(Value(fields, "path")) == c.path;
      case Video =>
        assert AsString(Value(fields, "description")) == c.description && AsString(Value(fields, "path")) == c.path;
        assert "message" !in fields;
      case Pulsar =>
        assert AsString(Value(fields, "description")) == c.description && "path" !in fields;
        assert "message" !in fields && "random" !in fields;
    }
  }

  /**
   * A blank command is written as a record with a name and no type, which the
   * reader skips: blank commands do not survive a write and a read.
   */
  lemma BlankRecordSkipped(c: Command, t: Tables)
    requires c.kind == Blank && c.name !in t.commands
    ensures RecordStep(Load(t, false), Object(RecordOf(c))) == Load(t, false)
  {
    assert TypeNamed(AsString(Value(RecordOf(c), "type"))) == None;
  }

  /**
   * The state of the first loop: the records written so far, the alias names
   * gathered per parent name, the parent names in the order first met, the
   * flags moved out for native commands, and the flags left behind.
   */
  datatype Gathering = Gathering(
    objects: seq<map<string, Json>>,
    groups: map<string, seq<string>>,
    parents: seq<string>,
    merged: map<string, NativeFlag>,
    flags: map<string, NativeFlag>)

  /** One entry of the first loop (bot.cpp:193-230). */
  function Gather(g: Gathering, c: Command): Gathering {
    if c.parent.Some? then
      var p := c.parent.value;
      if p in g.groups then g.(groups := g.groups[p := g.groups[p] + [c.name]])
      else g.(groups := g.groups[p := [c.name]], parents := g.parents + [p])
    else if c.kind == Native then
      if c.name in g.flags then g.(merged := Insert(g.merged, c.name, g.flags[c.name]), flags := g.flags - {c.name})
      else g
    else g.(objects := g.objects + [RecordOf(c)])
  }

  /** The first loop over the entries, in order. */
  function Gathered(flags: map<string, NativeFlag>, entries: seq<Command>): Gathering
    decreases |entries|
  {
    if entries == [] then Gathering([], map[], [], map[], flags)
    else Gather(Gathered(flags, entries[..|entries| - 1]), entries[|entries| - 1])
  }

  /** The name a written record carries. */
  function RecordName(o: map<string, Json>): string {
    AsString(Value(o, "command"))
  }

  /**
   * One record of the second loop (bot.cpp:235-247): when aliases were
   * gathered under its name they are attached and the group is taken out.
   */
  function Attach(s: (seq<map<string, Json>>, map<string, seq<string>>), o: map<string, Json>)
    : (seq<map<string, Json>>, map<string, seq<string>>)
  {
    var name := RecordName(o);
    if name in s.1 then (s.0 + [o["aliases" := Strings(s.1[name])]], s.1 - {name})
    else (s.0 + [o], s.1)
  }

  /** The second loop over the written records, in order. */
  function Attached(objects: seq<map<string, Json>>, groups: map<string, seq<string>>)
    : (seq<map<string, Json>>, map<string, seq<string>>)
    decreases |objects|
  {
    if objects == [] then ([], groups)
    else Attach(Attached(objects[..|objects| - 1], groups), objects[|objects| - 1])
  }

  /** The record of aliases whose parent has no record of its own (bot.cpp:253-262). */
  function GroupRecord(parent: string, aliases: seq<string>): map<string, Json> {
    map["command" := String(parent), "aliases" := Strings(aliases)]
  }

  /** The third loop over the groups left over, in the order their parents were first met. */
  function Leftovers(groups: map<string, seq<string>>, parents: seq<string>): seq<map<string, Json>>
    decreases |parents|
  {
    if parents == [] then []
    else
      var p := parents[|parents| - 1];
      Leftovers(groups, parents[..|parents| - 1]) + (if p in groups then [GroupRecord(p, groups[p])] else [])
  }

  /** A list of records as a JSON array of objects. */
  function Document(objects: seq<map<string, Json>>): (r: Json)
    ensures r.Array? && |r.items| == |objects|
    ensures forall i :: 0 <= i < |objects| ==> r.items[i] == Object(objects[i])
  {
    Array(seq(|objects|, i requires 0 <= i < |objects| => Object(objects[i])))
  }

  /** What SerializeCommands produces: the document, and the native flag table the bot keeps. */
  datatype Saved = Saved(document: Json, flags: map<string, NativeFlag>)

  /** Bot::SerializeCommands on the entries in the given order and the current flag table. */
  function Serialized(entries: seq<Command>, flags: map<string, NativeFlag>): Saved {
    var g := Gathered(flags, entries);
    var (objects, rest) := Attached(g.objects, g.groups);
    Saved(Document(objects + Leftovers(rest, g.parents)), g.merged)
  }

  /** The names of the full (non-alias) native commands among the entries. */
  function FullNatives(entries: seq<Command>): set<string> {
    set c | c in entries && c.kind == Native && !c.IsAlias() :: c.name
  }

  lemma FullNativesSnoc(entries: seq<Command>, c: Command)
    ensures FullNatives(entries + [c]) ==
            FullNatives(entries) + (if c.kind == Native && !c.IsAlias() then {c.name} else {})
  {
    var all := entries + [c];
    forall x | x in all ensures x in entries || x == c {
      var i :| 0 <= i < |all| && all[i] == x;
      if i < |entries| { assert all[i] == entries[i]; }
    }
    forall x | x in entries ensures x in all {
      var i :| 0 <= i < |entries| && entries[i] == x;
      assert all[i] == x;
    }
  }

  /** The first loop leaves behind the flags of the names that are not full native commands. */
  lemma {:induction false} GatheredLeft(flags: map<string, NativeFlag>, entries: seq<Command>)
    ensures Gathered(flags, entries).flags == (map n | n in flags && n !in FullNatives(entries) :: flags[n])
    decreases |entries|
  {
    if entries != [] {
      var front := entries[..|entries| - 1];
      var c := entries[|entries| - 1];
      GatheredLeft(flags, front);
      assert entries == front + [c];
      FullNativesSnoc(front, c);
    }
  }

  /**
   * The first loop moves the flag of every full native command into the
   * merged table; the merged table is the one the bot keeps.
   */
  lemma {:induction false} GatheredMerged(flags: map<string, NativeFlag>, entries: seq<Command>)
    ensures Gathered(flags, entries).merged == (map n | n in flags && n in FullNatives(entries) :: flags[n])
    decreases |entries|
  {
    if entries != [] {
      var front := entries[..|entries| - 1];
      var c := entries[|entries| - 1];
      GatheredMerged(flags, front);
      GatheredLeft(flags, front);
      assert entries == front + [c];
      FullNativesSnoc(front, c);
      var g := Gathered(flags, front);
      if !c.IsAlias() && c.kind == Native && c.name in g.flags {
        InsertMeaning(g.merged, c.name, g.flags[c.name]);
      }
    }
  }

  /**
   * After SerializeCommands the bot's flag table holds exactly the flags of
   * the full native commands among the entries: the flag of a native alias is
   * dropped, so the alias's own name no longer has a flag.
   */
  lemma SerializedFlags(entries: seq<Command>, flags: map<string, NativeFlag>)
    ensures Serialized(entries, flags).flags == (map n | n in flags && n in FullNatives(entries) :: flags[n])
    ensures forall c :: c in entries && c.IsAlias() && c.name !in FullNatives(entries) ==>
              c.name !in Serialized(entries, flags).flags
  {
    GatheredMerged(flags, entries);
  }

  /** The full commands that get a record of their own: neither aliases nor native. */
  function Written(entries: seq<Command>): (r: seq<Command>)
    ensures forall c :: c in r ==> c in entries && !c.IsAlias() && c.kind != Native
    decreases |entries|
  {
    if entries == [] then []
    else
      var c := entries[|entries| - 1];
      Written(entries[..|entries| - 1]) + (if !c.IsAlias() && c.kind != Native then [c] else [])
  }

  /** The names of the aliases among the entries that were made from `p`, in entry order. */
  function AliasesOf(entries: seq<Command>, p: string): seq<string>
    decreases |entries|
  {
    if entries == [] then []
    else
      var c := entries[|entries| - 1];
      AliasesOf(entries[..|entries| - 1], p) + (if c.parent == Some(p) then [c.name] else [])
  }

  /** The names aliases among the entries were made from. */
  function ParentNames(entries: seq<Command>): set<string> {
    set c | c in entries && c.parent.Some? :: c.parent.value
  }

  lemma ParentNamesSnoc(entries: seq<Command>, c: Command)
    ensures ParentNames(entries + [c]) ==
            ParentNames(entries) + (if c.parent.Some? then {c.parent.value} else {})
  {
    var all := entries + [c];
    forall x | x in all ensures x in entries || x == c {
      var i :| 0 <= i < |all| && all[i] == x;
      if i < |entries| { assert all[i] == entries[i]; }
    }
    forall x | x in entries ensures x in all {
      var i :| 0 <= i < |entries| && entries[i] == x;
      assert all[i] == x;
    }
  }

  /** The first loop writes a record for every full command that is neither an alias nor native, in entry order. */
  lemma {:induction false} GatheredObjects(flags: map<string, NativeFlag>, entries: seq<Command>)
    ensures Gathered(flags, entries).objects ==
            seq(|Written(entries)|, i requires 0 <= i < |Written(entries)| => RecordOf(Written(entries)[i]))
    decreases |entries|
  {
    if entries != [] {
      GatheredObjects(flags, entries[..|entries| - 1]);
    }
  }

  /**
   * The first loop gathers, for every name an alias was made from, the names
   * of the aliases made from it, in entry order.
   */
  lemma {:induction false} GatheredGroups(flags: map<string, NativeFlag>, entries: seq<Command>)
    ensures Gathered(flags, entries).groups.Keys == ParentNames(entries)
    ensures forall p :: p in Gathered(flags, entries).groups ==> Gathered(flags, entries).groups[p] == AliasesOf(entries, p)
    decreases |entries|
  {
    if entries != [] {
      var front := entries[..|entries| - 1];
      var c := entries[|entries| - 1];
      GatheredGroups(flags, front);
      assert entries == front + [c];
      ParentNamesSnoc(front, c);
      if c.parent.Some? && c.parent.value !in Gathered(flags, front).groups {
        AliasesAbsent(front, c.parent.value);
      }
    }
  }

  /** The first loop remembers each name an alias was made from exactly once. */
  lemma {:induction false} GatheredParents(flags: map<string, NativeFlag>, entries: seq<Command>)
    ensures forall p :: p in Gathered(flags, entries).parents <==> p in Gathered(flags, entries).groups
    ensures forall i, j :: 0 <= i < j < |Gathered(flags, entries).parents| ==>
              Gathered(flags, entries).parents[i] != Gathered(flags, entries).parents[j]
    decreases |entries|
  {
    if entries != [] {
      var g := Gathered(flags, entries[..|entries| - 1]);
      GatheredParents(flags, entries[..|entries| - 1]);
      var c := entries[|entries| - 1];
      if c.parent.Some? && c.parent.value !in g.groups {
        var ps := g.parents + [c.parent.value];
        forall i, j | 0 <= i < j < |ps| ensures ps[i] != ps[j] {
          assert ps[i] == g.parents[i];
          if j == |g.parents| { assert ps[i] in g.parents; } else { assert ps[j] == g.parents[j]; }
        }
        assert Gathered(flags, entries).parents == ps;
      }
    }
  }

  /** A name no alias was made from has no aliases. */
  lemma {:induction false} AliasesAbsent(entries: seq<Command>, p: string)
    requires p !in ParentNames(entries)
    ensures AliasesOf(entries, p) == []
    decreases |entries|
  {
    if entries != [] {
      var front := entries[..|entries| - 1];
      assert entries == front + [entries[|entries| - 1]];
      ParentNamesSnoc(front, entries[|entries| - 1]);
      AliasesAbsent(front, p);
    }
  }

  /** The names the records carry. */
  function NamesOf(objects: seq<map<string, Json>>): set<string> {
    set i | 0 <= i < |objects| :: RecordName(objects[i])
  }

  /** One more record adds its name. */
  lemma NamesOfSnoc(objects: seq<map<string, Json>>)
    requires objects != []
    ensures NamesOf(objects) == NamesOf(objects[..|objects| - 1]) + {RecordName(objects[|objects| - 1])}
  {
    var front := objects[..|objects| - 1];
    forall n | n in NamesOf(objects) ensures n in NamesOf(front) + {RecordName(objects[|objects| - 1])} {
      var i :| 0 <= i < |objects| && RecordName(objects[i]) == n;
      if i < |front| { assert objects[i] == front[i]; }
    }
    forall n | n in NamesOf(front) ensures n in NamesOf(objects) {
      var i :| 0 <= i < |front| && RecordName(front[i]) == n;
      assert objects[i] == front[i];
    }
  }

  /** The second loop keeps every record in place, changing at most its "aliases" member. */
  lemma {:induction false} AttachedKeeps(objects: seq<map<string, Json>>, groups: map<string, seq<string>>)
    ensures |Attached(objects, groups).0| == |objects|
    ensures forall i :: 0 <= i < |objects| ==>
              Attached(objects, groups).0[i] - {"aliases"} == objects[i] - {"aliases"}
    decreases |objects|
  {
    if objects != [] {
      var front := objects[..|objects| - 1];
      var o := objects[|objects| - 1];
      AttachedKeeps(front, groups);
      var s := Attached(front, groups);
      var r := Attached(objects, groups);
      assert r == Attach(s, o);
      forall i | 0 <= i < |objects| ensures r.0[i] - {"aliases"} == objects[i] - {"aliases"} {
        if i < |front| {
          assert r.0[i] == s.0[i] && objects[i] == front[i];
        } else if RecordName(o) in s.1 {
          assert r.0[i] == o["aliases" := Strings(s.1[RecordName(o)])];
        }
      }
    }
  }

  /** The groups the second loop leaves are exactly those whose name no record carries. */
  lemma {:induction false} AttachedRest(objects: seq<map<string, Json>>, groups: map<string, seq<string>>)
    ensures Attached(objects, groups).1 == (map p | p in groups && p !in NamesOf(objects) :: groups[p])
    decreases |objects|
  {
    if objects != [] {
      var front := objects[..|objects| - 1];
      AttachedRest(front, groups);
      NamesOfSnoc(objects);
      assert Attached(objects, groups) == Attach(Attached(front, groups), objects[|objects| - 1]);
    }
  }

  /** A group whose name some record carries is attached to such a record. */
  lemma {:induction false} AttachedLists(objects: seq<map<string, Json>>, groups: map<string, seq<string>>)
    ensures forall p :: p in groups && p in NamesOf(objects) ==> Lists(Attached(objects, groups).0, p, groups[p])
    decreases |objects|
  {
    if objects != [] {
      var front := objects[..|objects| - 1];
      var o := objects[|objects| - 1];
      AttachedLists(front, groups);
      AttachedKeeps(front, groups);
      AttachedRest(front, groups);
      NamesOfSnoc(objects);
      var s := Attached(front, groups);
      var r := Attached(objects, groups);
      assert r == Attach(s, o);
      forall p | p in groups && p in NamesOf(objects) ensures Lists(r.0, p, groups[p]) {
        if p in NamesOf(front) {
          var i :| 0 <= i < |s.0| && RecordName(s.0[i]) == p &&
                   "aliases" in s.0[i] && s.0[i]["aliases"] == Strings(groups[p]);
          assert r.0[i] == s.0[i];
        } else {
          assert p == RecordName(o) && p in s.1;
          var k := |objects| - 1;
          assert r.0[k] == o["aliases" := Strings(s.1[p])];
          assert RecordName(r.0[k]) == RecordName(o);
        }
      }
    }
  }

  /** The third loop writes a group record for every leftover group whose parent it visits. */
  lemma {:induction false} LeftoversMeaning(groups: map<string, seq<string>>, parents: seq<string>)
    ensures forall p :: p in groups && p in parents ==> GroupRecord(p, groups[p]) in Leftovers(groups, parents)
    decreases |parents|
  {
    if parents != [] {
      var front := parents[..|parents| - 1];
      LeftoversMeaning(groups, front);
      forall p | p in groups && p in parents ensures GroupRecord(p, groups[p]) in Leftovers(groups, parents) {
        var i :| 0 <= i < |parents| && parents[i] == p;
        if i < |front| { assert front[i] == p; }
      }
    }
  }

  /** An alias is listed among the aliases made from its parent. */
  lemma {:induction false} AliasesOfContains(entries: seq<Command>, c: Command)
    requires c in entries && c.parent.Some?
    ensures c.name in AliasesOf(entries, c.parent.value)
    decreases |entries|
  {
    var front := entries[..|entries| - 1];
    if entries[|entries| - 1] != c {
      assert c in front by {
        var i :| 0 <= i < |entries| && entries[i] == c;
        assert i < |front| && front[i] == c;
      }
      AliasesOfContains(front, c);
    }
  }

  /** Some record is named `p` and lists `names` as its aliases. */
  predicate Lists(objects: seq<map<string, Json>>, p: string, names: seq<string>) {
    exists i :: 0 <= i < |objects| && RecordName(objects[i]) == p &&
      "aliases" in objects[i] && objects[i]["aliases"] == Strings(names)
  }

  lemma ListsAppend(a: seq<map<string, Json>>, b: seq<map<string, Json>>, p: string, names: seq<string>)
    requires Lists(a, p, names) || Lists(b, p, names)
    ensures Lists(a + b, p, names)
  {
    if Lists(a, p, names) {
      var i :| 0 <= i < |a| && RecordName(a[i]) == p && "aliases" in a[i] && a[i]["aliases"] == Strings(names);
      assert (a + b)[i] == a[i];
    } else {
      var i :| 0 <= i < |b| && RecordName(b[i]) == p && "aliases" in b[i] && b[i]["aliases"] == Strings(names);
      assert (a + b)[|a| + i] == b[i];
    }
  }

  /** The records the three loops produce, before they become a JSON array. */
  function SerializedObjects(entries: seq<Command>, flags: map<string, NativeFlag>): seq<map<string, Json>> {
    var g := Gathered(flags, entries);
    var r := Attached(g.objects, g.groups);
    r.0 + Leftovers(r.1, g.parents)
  }

  lemma SerializedDocument(entries: seq<Command>, flags: map<string, NativeFlag>)
    ensures Serialized(entries, flags).document == Document(SerializedObjects(entries, flags))
  {
  }

  /** Every name aliases were made from is listed with all of its aliases. */
  lemma SerializedGroups(entries: seq<Command>, flags: map<string, NativeFlag>, p: string)
    requires p in ParentNames(entries)
    ensures Lists(SerializedObjects(entries, flags), p, AliasesOf(entries, p))
  {
    var g := Gathered(flags, entries);
    GatheredGroups(flags, entries);
    GatheredParents(flags, entries);
    var r := Attached(g.objects, g.groups);
    if p in NamesOf(g.objects) {
      AttachedLists(g.objects, g.groups);
      ListsAppend(r.0, Leftovers(r.1, g.parents), p, g.groups[p]);
    } else {
      AttachedRest(g.objects, g.groups);
      LeftoversMeaning(r.1, g.parents);
      var left := Leftovers(r.1, g.parents);
      assert p in r.1 && r.1[p] == g.groups[p];
      var j :| 0 <= j < |left| && left[j] == GroupRecord(p, r.1[p]);
      assert RecordName(left[j]) == p;
      assert Lists(left, p, g.groups[p]);
      ListsAppend(r.0, left, p, g.groups[p]);
    }
  }

  /**
   * Every alias among the entries is written: the document holds a record
   * named after the command it was made from whose "aliases" member lists,
   * in entry order, every alias made from that command, this one included.
   */
  lemma SerializedListsAliases(entries: seq<Command>, flags: map<string, NativeFlag>, c: Command)
    requires c in entries && c.parent.Some?
    ensures var items := Serialized(entries, flags).document.items;
            exists i :: 0 <= i < |items| && items[i].Object? &&
              RecordName(items[i].fields) == c.parent.value && "aliases" in items[i].fields &&
              items[i].fields["aliases"] == Strings(AliasesOf(entries, c.parent.value))
    ensures c.name in AliasesOf(entries, c.parent.value)
  {
    AliasesOfContains(entries, c);
    var p := c.parent.value;
    assert p in ParentNames(entries);
    SerializedGroups(entries, flags, p);
    SerializedDocument(entries, flags);
    var objects := SerializedObjects(entries, flags);
    var i :| 0 <= i < |objects| && RecordName(objects[i]) == p &&
             "aliases" in objects[i] && objects[i]["aliases"] == Strings(AliasesOf(entries, p));
    assert Serialized(entries, flags).document.items[i] == Object(objects[i]);
  }

  /**
   * Bot::SerializeCommands: the three loops over the entries, in the given
   * order; the result is the document and the flag table the bot keeps.
   */
  method Serialize(entries: seq<Command>, flags: map<string, NativeFlag>) returns (document: Json, kept: map<string, NativeFlag>)
    ensures Saved(document, kept) == Serialized(entries, flags)
  {
    var g := GatherEntries(entries, flags);
    var attached, rest := AttachGroups(g.objects, g.groups);
    var written := WriteLeftovers(attached, rest, g.parents);
    document := Document(written);
    kept := g.merged;
  }

  /** The first loop (bot.cpp:193-230): records, alias groups and native flags, entry by entry. */
  method GatherEntries(entries: seq<Command>, flags: map<string, NativeFlag>) returns (g: Gathering)
    ensures g == Gathered(flags, entries)
  {
    var objects: seq<map<string, Json>> := [];
    var groups: map<string, seq<string>> := map[];
    var parents: seq<string> := [];
    var merged: map<string, NativeFlag> := map[];
    var remaining := flags;
    for i := 0 to |entries|
      invariant Gathering(objects, groups, parents, merged, remaining) == Gathered(flags, entries[..i])
    {
      assert entries[..i + 1][..i] == entries[..i];
      var c := entries[i];
      if c.parent.Some? {
        var p := c.parent.value;
        // `aliases[parent]` starts an empty group the first time a parent is met
        if p in groups {
          groups := groups[p := groups[p] + [c.name]];
        } else {
          groups := groups[p := [c.name]];
          parents := parents + [p];
        }
        continue;
      }
      if c.kind == Native {
        if c.name in remaining {
          merged := Insert(merged, c.name, remaining[c.name]);
          remaining := remaining - {c.name};
        }
        continue;
      }
      objects := objects + [RecordOf(c)];
    }
    assert entries[..|entries|] == entries;
    g := Gathering(objects, groups, parents, merged, remaining);
  }

  /** The second loop (bot.cpp:235-247): each record takes the group gathered under its name. */
  method AttachGroups(objects: seq<map<string, Json>>, groups: map<string, seq<string>>)
    returns (written: seq<map<string, Json>>, rest: map<string, seq<string>>)
    ensures (written, rest) == Attached(objects, groups)
  {
    written := [];
    rest := groups;
    for i := 0 to |objects|
      invariant (written, rest) == Attached(objects[..i], groups)
    {
      assert objects[..i + 1][..i] == objects[..i];
      var o := objects[i];
      var name := RecordName(o);
      if name in rest {
        o := o["aliases" := Strings(rest[name])];
        rest := rest - {name};
      }
      written := written + [o];
    }
    assert objects[..|objects|] == objects;
  }

  /** The third loop (bot.cpp:253-262): a record for every group left, in the order its parent was met. */
  method WriteLeftovers(attached: seq<map<string, Json>>, rest: map<string, seq<string>>, parents: seq<string>)
    returns (written: seq<map<string, Json>>)
    ensures written == attached + Leftovers(rest, parents)
  {
    written := attached;
    for i := 0 to |parents|
      invariant written == attached + Leftovers(rest, parents[..i])
    {
      assert parents[..i + 1][..i] == parents[..i];
      var p := parents[i];
      if p in rest {
        written := written + [GroupRecord(p, rest[p])];
      }
    }
    assert parents[..|parents|] == parents;
  }
}
