/**
 * Writing the command lookup with Bot::SerializeCommands and reading the
 * document back with Bot::DeserializeCommands (bot.cpp:148-268): which
 * commands come back, as what, and with which flags.
 */
module RoundTrip {
  import opened Wrappers
  import opened Entities
  import opened Json
  import opened Registry
  import opened Serialization

  /**
   * The command under `n` is one the reader could have built on top of the
   * tables `t`: it is stored under its own name; a full command is either one
   * of t's native commands, with its flag, or a typed command t does not know;
   * an alias is a name t does not know, made from a full command of the lookup.
   */
  predicate Fits(t: Tables, lookup: map<string, Command>, n: string)
    requires n in lookup
  {
    var c := lookup[n];
    && c.name == n
    && if c.IsAlias() then
         && n !in t.commands && n !in t.flags
         && c.parent.value in lookup && !lookup[c.parent.value].IsAlias()
       else if c.kind == Native then
         n in t.commands && t.commands[n] == c && n in t.flags
       else
         c.kind != Blank && n !in t.commands && n !in t.flags
  }

  /** Every command of the lookup fits the tables `t`. */
  predicate Consistent(t: Tables, lookup: map<string, Command>) {
    forall n {:trigger Fits(t, lookup, n)} :: n in lookup ==> Fits(t, lookup, n)
  }

  /** `entries` lists the lookup: each entry is the command under its name, and every command has an entry. */
  predicate Enumerates(lookup: map<string, Command>, entries: seq<Command>) {
    && (forall c :: c in entries ==> c.name in lookup && lookup[c.name] == c)
    && (forall n :: n in lookup ==> lookup[n] in entries)
  }

  /** The command under `n` is an alias of a native command of the lookup. */
  predicate NativeAlias(lookup: map<string, Command>, n: string)
    requires n in lookup
  {
    var c := lookup[n];
    c.IsAlias() && c.parent.value in lookup && lookup[c.parent.value].kind == Native
  }

  /**
   * What the command under `n` is after a write and a read: a full command
   * comes back as its survivor, an alias as an alias of its parent's survivor.
   */
  function Restored(lookup: map<string, Command>, n: string): Command
    requires n in lookup
  {
    var c := lookup[n];
    if c.IsAlias() && c.parent.value in lookup then AliasOf(n, c.parent.value, Survivor(lookup[c.parent.value]))
    else Survivor(c)
  }

  /** The name `n`, which `t` does not know, holds its restored command, with a flag when it is a native alias. */
  ghost predicate Holds(lookup: map<string, Command>, tables: Tables, n: string)
    requires n in tables.commands
  {
    && n in lookup
    && tables.commands[n] == Restored(lookup, n)
    && (NativeAlias(lookup, n) ==> n in tables.flags)
  }

  /** The flag under `n`, which `t` does not know, is that of the native command the alias `n` was made from. */
  ghost predicate FlagHolds(t: Tables, lookup: map<string, Command>, tables: Tables, n: string)
    requires n in tables.flags
  {
    && n in lookup && NativeAlias(lookup, n)
    && lookup[n].parent.value in t.flags
    && tables.flags[n] == t.flags[lookup[n].parent.value]
  }

  /**
   * The reader has not thrown, has kept everything in `t`, and everything it
   * added is a restored command of the lookup, or the flag of a native alias
   * copied from its parent.
   */
  ghost predicate Restoring(t: Tables, lookup: map<string, Command>, l: Load) {
    && !l.threw
    && Extends(t, l.tables)
    && (forall n {:trigger Holds(lookup, l.tables, n)} ::
          n in l.tables.commands && n !in t.commands ==> Holds(lookup, l.tables, n))
    && (forall n {:trigger FlagHolds(t, lookup, l.tables, n)} ::
          n in l.tables.flags && n !in t.flags ==> FlagHolds(t, lookup, l.tables, n))
  }

  /** The alias names a record lists; none when it has no "aliases" member. */
  function Listed(fields: map<string, Json>): seq<Json> {
    AsArray(Value(fields, "aliases"))
  }

  /** The alias name `alias` belongs to an alias of the lookup made from `name`. */
  predicate OfParent(lookup: map<string, Command>, alias: Json, name: string) {
    AsString(alias) in lookup && lookup[AsString(alias)].parent == Some(name)
  }

  /**
   * A record the writer produces for the lookup: it is named after a full
   * command; unless that command is native, its type is the command's and it
   * rebuilds the command's survivor; and it lists aliases made from it.
   */
  predicate Recorded(lookup: map<string, Command>, fields: map<string, Json>) {
    var name := RecordName(fields);
    var kind := TypeNamed(AsString(Value(fields, "type")));
    && name in lookup && !lookup[name].IsAlias()
    && (lookup[name].kind != Native ==> kind.Some? && RecordCommand(name, fields, kind.value) == Survivor(lookup[name]))
    && (forall j :: 0 <= j < |Listed(fields)| ==> OfParent(lookup, Listed(fields)[j], name))
  }

  /** The tables hold the name of the record and every alias it lists. */
  ghost predicate Introduced(fields: map<string, Json>, tables: Tables) {
    && RecordName(fields) in tables.commands
    && (forall j :: 0 <= j < |Listed(fields)| ==> AsString(Listed(fields)[j]) in tables.commands)
  }

  /** A full command of the lookup that the reader holds is its survivor. */
  lemma ParentRestored(t: Tables, lookup: map<string, Command>, l: Load, name: string)
    requires Consistent(t, lookup) && Restoring(t, lookup, l)
    requires name in lookup && !lookup[name].IsAlias() && name in l.tables.commands
    ensures l.tables.commands[name] == Survivor(lookup[name])
  {
    assert Fits(t, lookup, name);
    if name !in t.commands {
      assert Holds(lookup, l.tables, name);
    }
  }

  /**
   * Growing the tables by at most the name `a` keeps the reader restoring when
   * nothing already there changes and what `a` gets is what a restoring reader
   * may add.
   */
  lemma RestoringGrows(t: Tables, lookup: map<string, Command>, l: Load, r: Load, a: string)
    requires Restoring(t, lookup, l) && !r.threw && Extends(l.tables, r.tables)
    requires r.tables.commands.Keys <= l.tables.commands.Keys + {a}
    requires r.tables.flags.Keys <= l.tables.flags.Keys + {a}
    requires a in r.tables.commands && a !in l.tables.commands && a !in t.commands ==> Holds(lookup, r.tables, a)
    requires a in r.tables.flags && a !in l.tables.flags && a !in t.flags ==> FlagHolds(t, lookup, r.tables, a)
    ensures Restoring(t, lookup, r)
  {
    forall n | n in r.tables.commands && n !in t.commands ensures Holds(lookup, r.tables, n) {
      if n in l.tables.commands {
        assert Holds(lookup, l.tables, n);
      }
    }
    forall n | n in r.tables.flags && n !in t.flags ensures FlagHolds(t, lookup, r.tables, n) {
      if n in l.tables.flags {
        assert FlagHolds(t, lookup, l.tables, n);
      }
    }
  }

  /** The alias read for a full command the reader holds is the alias's restored command. */
  lemma AliasCommandRestored(t: Tables, lookup: map<string, Command>, l: Load, name: string, alias: Json)
    requires Consistent(t, lookup) && Restoring(t, lookup, l)
    requires name in lookup && !lookup[name].IsAlias() && name in l.tables.commands
    requires OfParent(lookup, alias, name)
    ensures var a := AsString(alias);
            var commands := Insert(l.tables.commands, a, AliasOf(a, name, l.tables.commands[name]));
            commands[a] == Restored(lookup, a) && commands[a].kind == lookup[name].kind
  {
    var a := AsString(alias);
    ParentRestored(t, lookup, l, name);
    assert Fits(t, lookup, a);
    if a in l.tables.commands {
      assert Holds(lookup, l.tables, a);
    }
  }

  /** Reading one alias made from a full command the reader holds keeps the reader restoring, and adds the alias. */
  lemma AliasRestored(t: Tables, lookup: map<string, Command>, l: Load, name: string, alias: Json)
    requires Consistent(t, lookup) && Restoring(t, lookup, l)
    requires name in lookup && !lookup[name].IsAlias() && name in l.tables.commands
    requires OfParent(lookup, alias, name)
    ensures Restoring(t, lookup, AliasStep(l, name, alias))
    ensures Extends(l.tables, AliasStep(l, name, alias).tables)
    ensures AsString(alias) in AliasStep(l, name, alias).tables.commands
  {
    var a := AsString(alias);
    AliasCommandRestored(t, lookup, l, name, alias);
    AliasStepMeaning(l, name, alias);
    assert Fits(t, lookup, a) && Fits(t, lookup, name);
    var commands := Insert(l.tables.commands, a, AliasOf(a, name, l.tables.commands[name]));
    InsertMeaning(l.tables.commands, a, AliasOf(a, name, l.tables.commands[name]));
    var r := AliasStep(l, name, alias);
    if commands[a].kind == Native {
      assert name in t.flags;
      InsertMeaning(l.tables.flags, a, l.tables.flags[name]);
      assert a !in l.tables.flags ==> FlagHolds(t, lookup, r.tables, a);
    }
    assert r.tables.commands == commands;
    RestoringGrows(t, lookup, l, r, a);
  }

  /** Reading the aliases of a record for a full command the reader holds keeps it restoring and adds every alias. */
  lemma {:induction false} AliasesRestored(t: Tables, lookup: map<string, Command>, l: Load, name: string, aliases: seq<Json>)
    requires Consistent(t, lookup) && Restoring(t, lookup, l)
    requires name in lookup && !lookup[name].IsAlias() && name in l.tables.commands
    requires forall j :: 0 <= j < |aliases| ==> OfParent(lookup, aliases[j], name)
    ensures Restoring(t, lookup, Aliases(l, name, aliases))
    ensures Extends(l.tables, Aliases(l, name, aliases).tables)
    ensures forall j :: 0 <= j < |aliases| ==> AsString(aliases[j]) in Aliases(l, name, aliases).tables.commands
    decreases |aliases|
  {
    if aliases != [] {
      var k := |aliases| - 1;
      var front := Aliases(l, name, aliases[..k]);
      AliasesRestored(t, lookup, l, name, aliases[..k]);
      AliasRestored(t, lookup, front, name, aliases[k]);
      var r := Aliases(l, name, aliases);
      assert r == AliasStep(front, name, aliases[k]);
      ExtendsTransitive(l.tables, front.tables, r.tables);
      forall j | 0 <= j < |aliases| ensures AsString(aliases[j]) in r.tables.commands {
        if j < k {
          assert aliases[..k][j] == aliases[j];
          StillHeld(front.tables, r.tables, AsString(aliases[j]));
        }
      }
    }
  }

  /** A name held before is held in a table that extends it. */
  lemma StillHeld(a: Tables, b: Tables, n: string)
    requires Extends(a, b) && n in a.commands
    ensures n in b.commands
  {
  }

  /** A table that extends another still holds what a record introduced. */
  lemma IntroducedExtends(fields: map<string, Json>, a: Tables, b: Tables)
    requires Introduced(fields, a) && Extends(a, b)
    ensures Introduced(fields, b)
  {
  }

  /** Reading one record the writer produces keeps the reader restoring and introduces the record's names. */
  lemma RecordRestored(t: Tables, lookup: map<string, Command>, l: Load, fields: map<string, Json>)
    requires Consistent(t, lookup) && Restoring(t, lookup, l) && Recorded(lookup, fields)
    ensures Restoring(t, lookup, RecordStep(l, Object(fields)))
    ensures Extends(l.tables, RecordStep(l, Object(fields)).tables)
    ensures Introduced(fields, RecordStep(l, Object(fields)).tables)
  {
    var name := RecordName(fields);
    var kind := TypeNamed(AsString(Value(fields, "type")));
    assert Fits(t, lookup, name);
    assert AsObject(Object(fields)) == fields;
    var tables := if name in l.tables.commands then l.tables
                  else l.tables.(commands := l.tables.commands[name := RecordCommand(name, fields, kind.value)]);
    RestoringGrows(t, lookup, l, Load(tables, false), name);
    if "aliases" in fields {
      AliasesRestored(t, lookup, Load(tables, false), name, Listed(fields));
      ExtendsTransitive(l.tables, tables, RecordStep(l, Object(fields)).tables);
    }
  }

  /** Reading one record the writer produces introduces its names and keeps what was there. */
  lemma RecordIntroduces(t: Tables, lookup: map<string, Command>, l: Load, fields: map<string, Json>)
    requires Consistent(t, lookup) && Restoring(t, lookup, l) && Recorded(lookup, fields)
    ensures Extends(l.tables, RecordStep(l, Object(fields)).tables)
    ensures Introduced(fields, RecordStep(l, Object(fields)).tables)
  {
    RecordRestored(t, lookup, l, fields);
  }

  /** Reading records in two parts is reading them in one go. */
  lemma {:induction false} RecordsAppend(l: Load, a: seq<Json>, b: seq<Json>)
    ensures Records(l, a + b) == Records(Records(l, a), b)
    decreases |b|
  {
    if b == [] {
      assert a + b == a;
    } else {
      var k := |b| - 1;
      RecordsAppend(l, a, b[..k]);
      assert (a + b)[..|a + b| - 1] == a + b[..k];
    }
  }

  /** Every one of the records is an object the writer produces for the lookup. */
  predicate AllRecorded(lookup: map<string, Command>, records: seq<Json>)
    decreases |records|
  {
    records != [] ==>
      var k := |records| - 1;
      AllRecorded(lookup, records[..k]) && records[k].Object? && Recorded(lookup, records[k].fields)
  }

  /** The tables hold the names of every one of the records. */
  ghost predicate AllIntroduced(records: seq<Json>, tables: Tables)
    decreases |records|
  {
    records != [] ==>
      var k := |records| - 1;
      AllIntroduced(records[..k], tables) && records[k].Object? && Introduced(records[k].fields, tables)
  }

  /** The records are all the writer's exactly when each of them is. */
  lemma {:induction false} AllRecordedAt(lookup: map<string, Command>, records: seq<Json>)
    ensures AllRecorded(lookup, records) <==>
            forall i :: 0 <= i < |records| ==> records[i].Object? && Recorded(lookup, records[i].fields)
    decreases |records|
  {
    if records != [] {
      var k := |records| - 1;
      AllRecordedAt(lookup, records[..k]);
      assert forall i :: 0 <= i < k ==> records[..k][i] == records[i];
    }
  }

  /** Every record's names are held when all of them are. */
  lemma {:induction false} AllIntroducedAt(records: seq<Json>, tables: Tables, i: nat)
    requires AllIntroduced(records, tables) && i < |records|
    ensures records[i].Object? && Introduced(records[i].fields, tables)
    decreases |records|
  {
    var k := |records| - 1;
    if i < k {
      AllIntroducedAt(records[..k], tables, i);
      assert records[..k][i] == records[i];
    }
  }

  /** A table that extends another still holds the names of all the records. */
  lemma {:induction false} AllIntroducedExtends(records: seq<Json>, a: Tables, b: Tables)
    requires AllIntroduced(records, a) && Extends(a, b)
    ensures AllIntroduced(records, b)
    decreases |records|
  {
    if records != [] {
      var k := |records| - 1;
      AllIntroducedExtends(records[..k], a, b);
      IntroducedExtends(records[k].fields, a, b);
    }
  }

  /** Reading records the writer produces keeps the reader restoring. */
  lemma {:induction false} RecordsRestored(t: Tables, lookup: map<string, Command>, l: Load, records: seq<Json>)
    requires Consistent(t, lookup) && Restoring(t, lookup, l) && AllRecorded(lookup, records)
    ensures Restoring(t, lookup, Records(l, records))
    decreases |records|
  {
    if records != [] {
      var k := |records| - 1;
      RecordsRestored(t, lookup, l, records[..k]);
      assert records[k] == Object(records[k].fields);
      RecordRestored(t, lookup, Records(l, records[..k]), records[k].fields);
    }
  }

  /** After reading records the writer produces, the reader holds the name and the aliases of every record. */
  lemma {:induction false} RecordsIntroduce(t: Tables, lookup: map<string, Command>, l: Load, records: seq<Json>)
    requires Consistent(t, lookup) && Restoring(t, lookup, l) && AllRecorded(lookup, records)
    ensures AllIntroduced(records, Records(l, records).tables)
    decreases |records|
  {
    if records != [] {
      var k := |records| - 1;
      var front := Records(l, records[..k]);
      RecordsRestored(t, lookup, l, records[..k]);
      RecordsIntroduce(t, lookup, l, records[..k]);
      assert records[k] == Object(records[k].fields);
      RecordIntroduces(t, lookup, front, records[k].fields);
      AllIntroducedExtends(records[..k], front.tables, Records(l, records).tables);
    }
  }

  /** A full command's record carries its name and no aliases; a typed command's record carries its type. */
  lemma RecordShape(c: Command)
    ensures RecordName(RecordOf(c)) == c.name && "aliases" !in RecordOf(c)
    ensures c.kind != Native && c.kind != Blank ==> TypeNamed(AsString(Value(RecordOf(c), "type"))) == Some(c.kind)
  {
    TypeNameRoundTrip(c.kind);
  }

  /** Two records that differ at most in their "aliases" member carry the same name and type and rebuild the same command. */
  lemma SameBesideAliases(f: map<string, Json>, g: map<string, Json>, kind: CommandType)
    requires f - {"aliases"} == g - {"aliases"}
    ensures RecordName(f) == RecordName(g)
    ensures Value(f, "type") == Value(g, "type")
    ensures RecordCommand(RecordName(f), f, kind) == RecordCommand(RecordName(g), g, kind)
  {
    forall k | k != "aliases" ensures Value(f, k) == Value(g, k) && (k in f <==> k in g) {
      assert k in f <==> k in f - {"aliases"};
      assert k in g <==> k in g - {"aliases"};
      if k in f {
        assert (f - {"aliases"})[k] == f[k];
      }
    }
  }

  /** The second loop's "aliases" members are the groups gathered under the records' names. */
  lemma {:induction false} AttachedAliases(objects: seq<map<string, Json>>, groups: map<string, seq<string>>)
    requires forall i :: 0 <= i < |objects| ==> "aliases" !in objects[i]
    ensures forall i :: 0 <= i < |Attached(objects, groups).0| && "aliases" in Attached(objects, groups).0[i] ==>
              RecordName(Attached(objects, groups).0[i]) in groups &&
              Attached(objects, groups).0[i]["aliases"] == Strings(groups[RecordName(Attached(objects, groups).0[i])])
    decreases |objects|
  {
    if objects != [] {
      var k := |objects| - 1;
      var front := objects[..k];
      var o := objects[k];
      AttachedAliases(front, groups);
      AttachedRest(front, groups);
      AttachedKeeps(front, groups);
      var s := Attached(front, groups);
      var r := Attached(objects, groups);
      assert r == Attach(s, o);
      forall i | 0 <= i < |r.0| && "aliases" in r.0[i]
        ensures RecordName(r.0[i]) in groups && r.0[i]["aliases"] == Strings(groups[RecordName(r.0[i])])
      {
        if i < |s.0| {
          assert r.0[i] == s.0[i];
        } else {
          assert "aliases" !in o;
          assert RecordName(o) in s.1;
          var o' := o["aliases" := Strings(s.1[RecordName(o)])];
          assert r.0[i] == o';
          assert RecordName(o') == RecordName(o);
        }
      }
    }
  }

  /** The aliases made from `p` are names of the lookup whose commands were made from `p`. */
  lemma {:induction false} AliasesOfListed(lookup: map<string, Command>, entries: seq<Command>, p: string)
    requires forall c :: c in entries ==> c.name in lookup && lookup[c.name] == c
    ensures forall j :: 0 <= j < |AliasesOf(entries, p)| ==>
              OfParent(lookup, String(AliasesOf(entries, p)[j]), p)
    decreases |entries|
  {
    if entries != [] {
      var k := |entries| - 1;
      var c := entries[k];
      var front := entries[..k];
      forall d | d in front ensures d.name in lookup && lookup[d.name] == d {
        var i :| 0 <= i < k && front[i] == d;
        assert entries[i] == d;
      }
      AliasesOfListed(lookup, front, p);
      assert c in entries;
    }
  }

  /** The leftover records are group records, one per leftover name. */
  lemma {:induction false} LeftoversShape(rest: map<string, seq<string>>, parents: seq<string>)
    ensures forall k :: 0 <= k < |Leftovers(rest, parents)| ==>
              RecordName(Leftovers(rest, parents)[k]) in rest &&
              Leftovers(rest, parents)[k] == GroupRecord(RecordName(Leftovers(rest, parents)[k]), rest[RecordName(Leftovers(rest, parents)[k])])
    decreases |parents|
  {
    if parents != [] {
      var p := parents[|parents| - 1];
      LeftoversShape(rest, parents[..|parents| - 1]);
      assert RecordName(GroupRecord(p, if p in rest then rest[p] else [])) == p;
    }
  }

  /** Every full command that is neither an alias nor native is written. */
  lemma {:induction false} WrittenContains(entries: seq<Command>, c: Command)
    requires c in entries && !c.IsAlias() && c.kind != Native
    ensures c in Written(entries)
    decreases |entries|
  {
    var k := |entries| - 1;
    if entries[k] != c {
      var i :| 0 <= i < |entries| && entries[i] == c;
      assert entries[..k][i] == c;
      WrittenContains(entries[..k], c);
    }
  }

  /** Every full command that is neither an alias nor native names one of the first loop's records. */
  lemma WrittenNamed(flags: map<string, NativeFlag>, entries: seq<Command>, c: Command)
    requires c in entries
    ensures !c.IsAlias() && c.kind != Native ==> c.name in NamesOf(Gathered(flags, entries).objects)
  {
    if !c.IsAlias() && c.kind != Native {
      WrittenContains(entries, c);
      GatheredObjects(flags, entries);
      var w := Written(entries);
      var i :| 0 <= i < |w| && w[i] == c;
      var objects := Gathered(flags, entries).objects;
      RecordShape(c);
      assert RecordName(objects[i]) == c.name;
    }
  }

  /** The records of the first loop carry no aliases yet. */
  lemma GatheredBare(flags: map<string, NativeFlag>, entries: seq<Command>)
    ensures forall i :: 0 <= i < |Gathered(flags, entries).objects| ==> "aliases" !in Gathered(flags, entries).objects[i]
  {
    GatheredObjects(flags, entries);
    var w := Written(entries);
    forall i | 0 <= i < |w| ensures "aliases" !in RecordOf(w[i]) {
      RecordShape(w[i]);
    }
  }

  /**
   * The record of a typed full command of the lookup, with the aliases made
   * from it attached or not, is one the writer produces for the lookup.
   */
  lemma TypedRecorded(lookup: map<string, Command>, w: Command, o: map<string, Json>, names: seq<string>)
    requires w.name in lookup && lookup[w.name] == w && !w.IsAlias() && w.kind != Native && w.kind != Blank
    requires o - {"aliases"} == RecordOf(w) - {"aliases"}
    requires "aliases" in o ==> o["aliases"] == Strings(names)
    requires forall j :: 0 <= j < |names| ==> OfParent(lookup, String(names[j]), w.name)
    ensures Recorded(lookup, o)
  {
    RecordShape(w);
    RecordSurvives(w);
    SameBesideAliases(o, RecordOf(w), w.kind);
  }

  /** A group record for a native command of the lookup, listing aliases made from it, is one the writer produces. */
  lemma GroupRecorded(lookup: map<string, Command>, p: string, names: seq<string>)
    requires p in lookup && !lookup[p].IsAlias() && lookup[p].kind == Native
    requires forall j :: 0 <= j < |names| ==> OfParent(lookup, String(names[j]), p)
    ensures Recorded(lookup, GroupRecord(p, names))
  {
    assert RecordName(GroupRecord(p, names)) == p;
  }

  /** The i-th record of the second loop is one the writer produces for the lookup. */
  lemma AttachedRecorded(t: Tables, lookup: map<string, Command>, entries: seq<Command>, flags: map<string, NativeFlag>, i: nat)
    requires Consistent(t, lookup) && Enumerates(lookup, entries)
    requires i < |Attached(Gathered(flags, entries).objects, Gathered(flags, entries).groups).0|
    ensures Recorded(lookup, Attached(Gathered(flags, entries).objects, Gathered(flags, entries).groups).0[i])
  {
    var g := Gathered(flags, entries);
    var o := Attached(g.objects, g.groups).0[i];
    GatheredObjects(flags, entries);
    AttachedKeeps(g.objects, g.groups);
    var w := Written(entries)[i];
    assert w in Written(entries);
    assert Fits(t, lookup, w.name);
    assert o - {"aliases"} == RecordOf(w) - {"aliases"};
    RecordShape(w);
    SameBesideAliases(o, RecordOf(w), w.kind);
    assert w in entries && lookup[w.name] == w;
    AliasesOfListed(lookup, entries, w.name);
    AttachedAliasesAt(flags, entries, i);
    TypedRecorded(lookup, w, o, AliasesOf(entries, w.name));
  }

  /** The "aliases" member of the i-th record of the second loop lists the aliases made from the command it names. */
  lemma AttachedAliasesAt(flags: map<string, NativeFlag>, entries: seq<Command>, i: nat)
    requires i < |Attached(Gathered(flags, entries).objects, Gathered(flags, entries).groups).0|
    ensures var o := Attached(Gathered(flags, entries).objects, Gathered(flags, entries).groups).0[i];
            "aliases" in o ==> o["aliases"] == Strings(AliasesOf(entries, RecordName(o)))
  {
    var g := Gathered(flags, entries);
    GatheredGroups(flags, entries);
    GatheredBare(flags, entries);
    AttachedAliases(g.objects, g.groups);
  }

  /** The k-th leftover record is one the writer produces for the lookup: its name is a native command. */
  lemma LeftoverRecorded(t: Tables, lookup: map<string, Command>, entries: seq<Command>, flags: map<string, NativeFlag>, k: nat)
    requires Consistent(t, lookup) && Enumerates(lookup, entries)
    requires var g := Gathered(flags, entries);
             k < |Leftovers(Attached(g.objects, g.groups).1, g.parents)|
    ensures var g := Gathered(flags, entries);
            Recorded(lookup, Leftovers(Attached(g.objects, g.groups).1, g.parents)[k])
  {
    var g := Gathered(flags, entries);
    var rest := Attached(g.objects, g.groups).1;
    var o := Leftovers(rest, g.parents)[k];
    var p := LeftoverNamed(flags, entries, k);
    var c :| c in entries && c.parent.Some? && c.parent.value == p;
    assert Fits(t, lookup, c.name);
    assert Fits(t, lookup, p);
    WrittenNamed(flags, entries, lookup[p]);
    AliasesOfListed(lookup, entries, p);
    GroupRecorded(lookup, p, AliasesOf(entries, p));
  }

  /** The k-th leftover record is the group record of a name aliases were made from and no record carries. */
  lemma LeftoverNamed(flags: map<string, NativeFlag>, entries: seq<Command>, k: nat) returns (p: string)
    requires var g := Gathered(flags, entries);
             k < |Leftovers(Attached(g.objects, g.groups).1, g.parents)|
    ensures var g := Gathered(flags, entries);
            && p in ParentNames(entries) && p !in NamesOf(g.objects)
            && Leftovers(Attached(g.objects, g.groups).1, g.parents)[k] == GroupRecord(p, AliasesOf(entries, p))
  {
    var g := Gathered(flags, entries);
    var rest := Attached(g.objects, g.groups).1;
    LeftoversShape(rest, g.parents);
    AttachedRest(g.objects, g.groups);
    GatheredGroups(flags, entries);
    p := RecordName(Leftovers(rest, g.parents)[k]);
  }

  /** Every record of the written document is one the writer produces for the lookup. */
  lemma DocumentRecorded(t: Tables, lookup: map<string, Command>, entries: seq<Command>, flags: map<string, NativeFlag>)
    requires Consistent(t, lookup) && Enumerates(lookup, entries)
    ensures AllRecorded(lookup, Serialized(entries, flags).document.items)
  {
    var g := Gathered(flags, entries);
    var attached := Attached(g.objects, g.groups).0;
    var left := Leftovers(Attached(g.objects, g.groups).1, g.parents);
    var objects := SerializedObjects(entries, flags);
    assert objects == attached + left;
    SerializedDocument(entries, flags);
    var items := Serialized(entries, flags).document.items;
    forall i | 0 <= i < |items| ensures items[i].Object? && Recorded(lookup, items[i].fields) {
      assert items[i] == Object(objects[i]);
      if i < |attached| {
        AttachedRecorded(t, lookup, entries, flags, i);
      } else {
        LeftoverRecorded(t, lookup, entries, flags, i - |attached|);
      }
    }
    AllRecordedAt(lookup, items);
  }

  /** A full command that is not native names a record of the written document. */
  lemma FullNamed(t: Tables, lookup: map<string, Command>, entries: seq<Command>, flags: map<string, NativeFlag>, n: string)
    returns (i: nat)
    requires Consistent(t, lookup) && Enumerates(lookup, entries)
    requires n in lookup && !lookup[n].IsAlias() && lookup[n].kind != Native
    ensures var items := Serialized(entries, flags).document.items;
            i < |items| && items[i].Object? && RecordName(items[i].fields) == n
  {
    var g := Gathered(flags, entries);
    assert Fits(t, lookup, n);
    WrittenNamed(flags, entries, lookup[n]);
    i :| 0 <= i < |g.objects| && RecordName(g.objects[i]) == n;
    AttachedKeeps(g.objects, g.groups);
    var attached := Attached(g.objects, g.groups).0;
    SameBesideAliases(attached[i], g.objects[i], Blank);
    SerializedDocument(entries, flags);
    var objects := SerializedObjects(entries, flags);
    assert objects[i] == attached[i];
  }

  /** An alias is listed by a record of the written document. */
  lemma AliasListed(t: Tables, lookup: map<string, Command>, entries: seq<Command>, flags: map<string, NativeFlag>, n: string)
    returns (i: nat, j: nat)
    requires Consistent(t, lookup) && Enumerates(lookup, entries)
    requires n in lookup && lookup[n].IsAlias()
    ensures var items := Serialized(entries, flags).document.items;
            i < |items| && items[i].Object? && j < |Listed(items[i].fields)| && AsString(Listed(items[i].fields)[j]) == n
  {
    var c := lookup[n];
    assert Fits(t, lookup, n);
    SerializedListsAliases(entries, flags, c);
    var items := Serialized(entries, flags).document.items;
    var names := AliasesOf(entries, c.parent.value);
    i :| 0 <= i < |items| && items[i].Object? && RecordName(items[i].fields) == c.parent.value &&
         "aliases" in items[i].fields && items[i].fields["aliases"] == Strings(names);
    j :| 0 <= j < |names| && names[j] == n;
  }

  /** Bot::SerializeCommands then Bot::DeserializeCommands, starting from the tables `t`. */
  function RoundTripped(t: Tables, entries: seq<Command>, flags: map<string, NativeFlag>): Load {
    Deserialized(t, Serialized(entries, flags).document)
  }

  /** Reading the written document back keeps the reader restoring and holds the name and aliases of every record. */
  lemma ReadBack(t: Tables, lookup: map<string, Command>, entries: seq<Command>, flags: map<string, NativeFlag>)
    requires Consistent(t, lookup) && Enumerates(lookup, entries)
    ensures Restoring(t, lookup, RoundTripped(t, entries, flags))
    ensures AllIntroduced(Serialized(entries, flags).document.items, RoundTripped(t, entries, flags).tables)
  {
    var items := Serialized(entries, flags).document.items;
    assert AsArray(Serialized(entries, flags).document) == items;
    DocumentRecorded(t, lookup, entries, flags);
    assert Restoring(t, lookup, Load(t, false));
    RecordsRestored(t, lookup, Load(t, false), items);
    RecordsIntroduce(t, lookup, Load(t, false), items);
  }

  /** One command of the lookup comes back restored, and a native alias with its parent's flag. */
  lemma ComesBack(t: Tables, lookup: map<string, Command>, entries: seq<Command>, flags: map<string, NativeFlag>, n: string)
    requires Consistent(t, lookup) && Enumerates(lookup, entries) && n in lookup
    ensures var r := RoundTripped(t, entries, flags).tables;
            n in r.commands && r.commands[n] == Restored(lookup, n)
    ensures var r := RoundTripped(t, entries, flags).tables;
            NativeAlias(lookup, n) ==>
              lookup[n].parent.value in t.flags && n in r.flags && r.flags[n] == t.flags[lookup[n].parent.value]
  {
    var r := RoundTripped(t, entries, flags).tables;
    var items := Serialized(entries, flags).document.items;
    ReadBack(t, lookup, entries, flags);
    assert Fits(t, lookup, n);
    if lookup[n].IsAlias() {
      var i, j := AliasListed(t, lookup, entries, flags, n);
      AllIntroducedAt(items, r, i);
    } else if lookup[n].kind != Native {
      var i := FullNamed(t, lookup, entries, flags, n);
      AllIntroducedAt(items, r, i);
    }
    if n !in t.commands {
      assert Holds(lookup, r, n);
      if NativeAlias(lookup, n) {
        assert FlagHolds(t, lookup, r, n);
      }
    }
  }

  /**
   * Writing a command lookup out and reading it back into the tables `t` it
   * was built on: the read does not throw; every command comes back as what
   * its type writes (an alias as an alias of its parent as restored); a native
   * alias gets its parent's flag back through the leftover record; everything
   * in `t` is kept; and no other name appears.
   */
  lemma DocumentRoundTrip(t: Tables, lookup: map<string, Command>, entries: seq<Command>, flags: map<string, NativeFlag>)
    requires Consistent(t, lookup) && Enumerates(lookup, entries)
    ensures !RoundTripped(t, entries, flags).threw
    ensures forall n :: n in lookup ==>
              n in RoundTripped(t, entries, flags).tables.commands &&
              RoundTripped(t, entries, flags).tables.commands[n] == Restored(lookup, n)
    ensures forall n :: n in lookup && NativeAlias(lookup, n) ==>
              lookup[n].parent.value in t.flags && n in RoundTripped(t, entries, flags).tables.flags &&
              RoundTripped(t, entries, flags).tables.flags[n] == t.flags[lookup[n].parent.value]
    ensures Extends(t, RoundTripped(t, entries, flags).tables)
    ensures forall n :: n in RoundTripped(t, entries, flags).tables.commands ==> n in t.commands || n in lookup
  {
    var r := RoundTripped(t, entries, flags).tables;
    ReadBack(t, lookup, entries, flags);
    forall n | n in lookup
      ensures n in r.commands && r.commands[n] == Restored(lookup, n)
      ensures NativeAlias(lookup, n) ==>
                lookup[n].parent.value in t.flags && n in r.flags && r.flags[n] == t.flags[lookup[n].parent.value]
    {
      ComesBack(t, lookup, entries, flags, n);
    }
    forall n | n in r.commands && n !in t.commands ensures n in lookup {
      assert Holds(lookup, r, n);
    }
  }

  /**
   * A blank command does not survive, and neither do the aliases made from
   * it: its record, aliases attached, has no type and is skipped whole.
   */
  lemma BlankAliasesLost(c: Command, aliases: seq<string>, t: Tables)
    requires c.kind == Blank && !c.IsAlias() && c.name !in t.commands
    ensures RecordStep(Load(t, false), Object(RecordOf(c)["aliases" := Strings(aliases)])) == Load(t, false)
  {
    var fields := RecordOf(c)["aliases" := Strings(aliases)];
    assert AsString(Value(fields, "command")) == c.name;
    assert TypeNamed(AsString(Value(fields, "type"))) == None;
  }

  /**
   * Reading the record does not bring back the name `n`: a record named `n`
   * has no type the reader knows, and it lists no alias named `n`.
   */
  predicate Avoids(fields: map<string, Json>, n: string) {
    && (RecordName(fields) == n ==> TypeNamed(AsString(Value(fields, "type"))).None?)
    && (forall j :: 0 <= j < |Listed(fields)| ==> AsString(Listed(fields)[j]) != n)
  }

  /** Every one of the records avoids the name `n`. */
  predicate AllAvoid(records: seq<Json>, n: string)
    decreases |records|
  {
    records != [] ==>
      var k := |records| - 1;
      AllAvoid(records[..k], n) && records[k].Object? && Avoids(records[k].fields, n)
  }

  /** The records all avoid `n` exactly when each of them does. */
  lemma {:induction false} AllAvoidAt(records: seq<Json>, n: string)
    ensures AllAvoid(records, n) <==> forall i :: 0 <= i < |records| ==> records[i].Object? && Avoids(records[i].fields, n)
    decreases |records|
  {
    if records != [] {
      var k := |records| - 1;
      AllAvoidAt(records[..k], n);
      assert forall i :: 0 <= i < k ==> records[..k][i] == records[i];
    }
  }

  /** Reading aliases none of which is named `n` leaves `n` out of the commands. */
  lemma {:induction false} AliasesAvoid(l: Load, name: string, aliases: seq<Json>, n: string)
    requires name in l.tables.commands && n !in l.tables.commands
    requires forall j :: 0 <= j < |aliases| ==> AsString(aliases[j]) != n
    ensures n !in Aliases(l, name, aliases).tables.commands
    decreases |aliases|
  {
    if aliases != [] {
      var k := |aliases| - 1;
      AliasesAvoid(l, name, aliases[..k], n);
      InsertMeaning(Aliases(l, name, aliases[..k]).tables.commands, AsString(aliases[k]), AliasOf(AsString(aliases[k]), name, Aliases(l, name, aliases[..k]).tables.commands[name]));
    }
  }

  /** Reading records that all avoid `n` leaves `n` out of the commands. */
  lemma {:induction false} RecordsAvoid(l: Load, records: seq<Json>, n: string)
    requires n !in l.tables.commands && AllAvoid(records, n)
    ensures n !in Records(l, records).tables.commands
    decreases |records|
  {
    if records != [] {
      var k := |records| - 1;
      var front := Records(l, records[..k]);
      RecordsAvoid(l, records[..k], n);
      var fields := AsObject(records[k]);
      assert fields == records[k].fields;
      var name := RecordName(fields);
      if !front.threw && (name in front.tables.commands || TypeNamed(AsString(Value(fields, "type"))).Some?) {
        var t := if name in front.tables.commands then front.tables
                 else front.tables.(commands := front.tables.commands[name := RecordCommand(name, fields, TypeNamed(AsString(Value(fields, "type"))).value)]);
        assert n !in t.commands;
        if "aliases" in fields {
          assert Listed(fields) == AsArray(fields["aliases"]);
          AliasesAvoid(Load(t, false), name, AsArray(fields["aliases"]), n);
        }
      }
    }
  }

  /** The names listed in the record of aliases made from `p` are not the name of a full command. */
  lemma GroupAvoids(lookup: map<string, Command>, entries: seq<Command>, o: map<string, Json>, p: string, n: string)
    requires forall c :: c in entries ==> c.name in lookup && lookup[c.name] == c
    requires n in lookup && !lookup[n].IsAlias()
    requires "aliases" in o ==> o["aliases"] == Strings(AliasesOf(entries, p))
    ensures forall j :: 0 <= j < |Listed(o)| ==> AsString(Listed(o)[j]) != n
  {
    AliasesOfListed(lookup, entries, p);
    forall j | 0 <= j < |Listed(o)| ensures AsString(Listed(o)[j]) != n {
      assert OfParent(lookup, String(AliasesOf(entries, p)[j]), p);
    }
  }

  /** The i-th record of the second loop avoids a full native command of the lookup. */
  lemma AttachedAvoids(lookup: map<string, Command>, entries: seq<Command>, flags: map<string, NativeFlag>, n: string, i: nat)
    requires Enumerates(lookup, entries)
    requires n in lookup && !lookup[n].IsAlias() && lookup[n].kind == Native
    requires i < |Attached(Gathered(flags, entries).objects, Gathered(flags, entries).groups).0|
    ensures Avoids(Attached(Gathered(flags, entries).objects, Gathered(flags, entries).groups).0[i], n)
  {
    var g := Gathered(flags, entries);
    var o := Attached(g.objects, g.groups).0[i];
    GatheredObjects(flags, entries);
    AttachedKeeps(g.objects, g.groups);
    var w := Written(entries)[i];
    assert w in Written(entries);
    RecordShape(w);
    SameBesideAliases(o, RecordOf(w), w.kind);
    assert w in entries && lookup[w.name] == w;
    AttachedAliasesAt(flags, entries, i);
    GroupAvoids(lookup, entries, o, w.name, n);
  }

  /** The k-th leftover record avoids a full native command of the lookup. */
  lemma LeftoverAvoids(lookup: map<string, Command>, entries: seq<Command>, flags: map<string, NativeFlag>, n: string, k: nat)
    requires Enumerates(lookup, entries)
    requires n in lookup && !lookup[n].IsAlias() && lookup[n].kind == Native
    requires var g := Gathered(flags, entries);
             k < |Leftovers(Attached(g.objects, g.groups).1, g.parents)|
    ensures var g := Gathered(flags, entries);
            Avoids(Leftovers(Attached(g.objects, g.groups).1, g.parents)[k], n)
  {
    var p := LeftoverNamed(flags, entries, k);
    var o := GroupRecord(p, AliasesOf(entries, p));
    assert Value(o, "type") == Undefined;
    GroupAvoids(lookup, entries, o, p, n);
  }

  /** No record of the written document brings back a full native command of the lookup. */
  lemma DocumentAvoids(lookup: map<string, Command>, entries: seq<Command>, flags: map<string, NativeFlag>, n: string)
    requires Enumerates(lookup, entries)
    requires n in lookup && !lookup[n].IsAlias() && lookup[n].kind == Native
    ensures AllAvoid(Serialized(entries, flags).document.items, n)
  {
    var g := Gathered(flags, entries);
    var attached := Attached(g.objects, g.groups).0;
    var left := Leftovers(Attached(g.objects, g.groups).1, g.parents);
    var objects := SerializedObjects(entries, flags);
    assert objects == attached + left;
    SerializedDocument(entries, flags);
    var items := Serialized(entries, flags).document.items;
    forall i | 0 <= i < |items| ensures items[i].Object? && Avoids(items[i].fields, n) {
      assert items[i] == Object(objects[i]);
      if i < |attached| {
        AttachedAvoids(lookup, entries, flags, n, i);
      } else {
        LeftoverAvoids(lookup, entries, flags, n, i - |attached|);
      }
    }
    AllAvoidAt(items, n);
  }

  /**
   * A full native command that is not one of the tables' own does not come
   * back: the writer gives it no record, and a record of aliases made from
   * it carries no type.
   */
  lemma NativeLost(t: Tables, lookup: map<string, Command>, entries: seq<Command>, flags: map<string, NativeFlag>, n: string)
    requires Enumerates(lookup, entries)
    requires n in lookup && !lookup[n].IsAlias() && lookup[n].kind == Native && n !in t.commands
    ensures n !in RoundTripped(t, entries, flags).tables.commands
  {
    DocumentAvoids(lookup, entries, flags, n);
    SerializedDocument(entries, flags);
    RecordsAvoid(Load(t, false), Serialized(entries, flags).document.items, n);
  }

  /** The native command `foo` a stored command list may name, as the reader builds it. */
  function Foo(): Command {
    FullCommand("foo", "", Native, false, "", "", false)
  }

  /**
   * A stored record of type "native" for a name that is not built in loads a
   * native command with no flag, and after a save and a load it is gone.
   */
  lemma LoadedNativeLost(names: CommandNames, entries: seq<Command>, flags: map<string, NativeFlag>)
    requires names.Distinct() && "foo" !in names.List()
    requires Enumerates(Deserialized(Declared(names), Array([Object(map["command" := String("foo"), "type" := String("native")])])).tables.commands, entries)
    ensures var t := Declared(names);
            var loaded := Deserialized(t, Array([Object(map["command" := String("foo"), "type" := String("native")])]));
            && loaded == Load(t.(commands := t.commands["foo" := Foo()]), false)
            && "foo" !in loaded.tables.flags
            && "foo" !in RoundTripped(t, entries, flags).tables.commands
  {
    var t := Declared(names);
    DeclaredKeys(names, "foo");
    var fields := map["command" := String("foo"), "type" := String("native")];
    assert RecordName(fields) == "foo";
    assert TypeNamed(AsString(Value(fields, "type"))) == Some(Native);
    assert RecordCommand("foo", fields, Native) == Foo();
    RecordsSnoc(Load(t, false), [], Object(fields));
    assert [] + [Object(fields)] == [Object(fields)];
    var loaded := Deserialized(t, Array([Object(fields)]));
    assert loaded == Load(t.(commands := t.commands["foo" := Foo()]), false);
    NativeLost(t, loaded.tables.commands, entries, flags, "foo");
  }

  /** The announcement `intro` of a stored command list, as the reader builds it. */
  function Intro(): Command {
    FullCommand("intro", "", Audio, false, "intro.mp4", "", false)
  }

  /**
   * A stored record for the announcement `intro` with the alias `hi` loads
   * two commands sharing type and path, and nothing else.
   */
  lemma IntroLoads(names: CommandNames)
    requires names.Distinct() && "intro" !in names.List() && "hi" !in names.List()
    ensures var t := Declared(names);
            var stored := Object(map["command" := String("intro"), "type" := String("announce"),
                                     "path" := String("intro.mp4"), "aliases" := Array([String("hi")])]);
            Deserialized(t, Array([stored])) ==
              Load(Tables(t.commands["intro" := Intro()]["hi" := AliasOf("hi", "intro", Intro())], t.flags), false)
  {
    var t := Declared(names);
    DeclaredKeys(names, "intro");
    DeclaredKeys(names, "hi");
    var intro := Intro();
    var fields := map["command" := String("intro"), "type" := String("announce"),
                      "path" := String("intro.mp4"), "aliases" := Array([String("hi")])];
    assert AsString(Value(fields, "command")) == "intro";
    assert TypeNamed(AsString(Value(fields, "type"))) == Some(Audio);
    assert RecordCommand("intro", fields, Audio) == intro;
    var t' := t.(commands := t.commands["intro" := intro]);
    AliasesSnoc(Load(t', false), "intro", [], String("hi"));
    assert AsArray(fields["aliases"]) == [] + [String("hi")];
    assert RecordStep(Load(t, false), Object(fields)) == AliasStep(Load(t', false), "intro", String("hi"));
    RecordsSnoc(Load(t, false), [], Object(fields));
    assert [] + [Object(fields)] == [Object(fields)];
  }

  /** The first loop over `intro` and `hi` writes the record of `intro` and gathers `hi` under it. */
  lemma IntroGathered(flags: map<string, NativeFlag>)
    ensures var g := Gathered(flags, [Intro(), AliasOf("hi", "intro", Intro())]);
            g.objects == [RecordOf(Intro())] && g.groups == map["intro" := ["hi"]] && g.parents == ["intro"]
  {
    var intro := Intro();
    var hi := AliasOf("hi", "intro", intro);
    var entries := [intro, hi];
    assert entries[..1] == [intro] && [intro][..0] == [];
    var g0 := Gathered(flags, []);
    assert g0 == Gathering([], map[], [], map[], flags);
    var g1 := Gathered(flags, [intro]);
    assert g1 == Gather(g0, intro);
    assert g1.objects == [RecordOf(intro)] && g1.groups == map[];
    assert Gathered(flags, entries) == Gather(g1, hi);
  }

  /**
   * Writing back `intro` and its alias `hi` gives one record listing `hi`
   * among its aliases, with the description the writer always adds.
   */
  lemma IntroWrites(flags: map<string, NativeFlag>)
    ensures Serialized([Intro(), AliasOf("hi", "intro", Intro())], flags).document ==
              Array([Object(map["command" := String("intro"), "type" := String("announce"),
                                "description" := String(""), "path" := String("intro.mp4"),
                                "aliases" := Array([String("hi")])])])
  {
    var intro := Intro();
    IntroGathered(flags);
    var groups := map["intro" := ["hi"]];
    var written := RecordOf(intro)["aliases" := Strings(["hi"])];
    assert Strings(["hi"]) == Array([String("hi")]);
    assert [RecordOf(intro)][..0] == [];
    assert Attached([], groups) == ([], groups);
    RecordShape(intro);
    assert groups - {"intro"} == map[];
    assert [] + [written] == [written];
    assert Attached([RecordOf(intro)], groups) == ([written], map[]);
    assert ["intro"][..0] == [];
    assert Leftovers(map[], ["intro"]) == [];
    assert [written] + [] == [written];
  }
}
