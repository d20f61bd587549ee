/**
 * Viewer::Attributes and their persisted form (bot.cpp:287-335): the flags the
 * bot keeps per viewer login, read from and written to a JSON object keyed by
 * login. Opening, reading and writing the file are not modelled; the document
 * is given as a JSON value, or as missing when it could not be parsed.
 */
module Viewers {
  import opened Wrappers
  import opened Json

  /** Viewer::Attributes: may use commands, has been welcomed, is a bot account. */
  datatype Attributes = Attributes(commands: bool, welcomed: bool, bot: bool)

  const COMMANDS: string := "commands"
  const WELCOMED: string := "welcomed"
  const BOT: string := "bot"

  /**
   * `Viewer::Attributes{}`: the header declaring the record is not part of this
   * model; value initialisation leaves every flag clear.
   */
  function Unknown(): (a: Attributes)
    ensures !a.commands && !a.welcomed && !a.bot
  {
    Attributes(false, false, false)
  }

  /** One viewer's attributes as read (bot.cpp:310-314): a missing flag is read as true, false and false. */
  function AttributesOf(fields: map<string, Json>): Attributes {
    Attributes(
      if COMMANDS in fields then AsBool(fields[COMMANDS]) else true,
      if WELCOMED in fields then AsBool(fields[WELCOMED]) else false,
      if BOT in fields then AsBool(fields[BOT]) else false)
  }

  /** A member that is present is read with toBool; a missing one takes its default. */
  lemma AttributesDefaults(fields: map<string, Json>)
    ensures AttributesOf(map[]) == Attributes(true, false, false)
    ensures AttributesOf(fields).commands <==> COMMANDS !in fields || fields[COMMANDS] == Bool(true)
    ensures AttributesOf(fields).welcomed <==> WELCOMED in fields && fields[WELCOMED] == Bool(true)
    ensures AttributesOf(fields).bot <==> BOT in fields && fields[BOT] == Bool(true)
  {
  }

  /** Every viewer of the document, each read from its own member (a non-object reads as empty). */
  function Read(entries: map<string, Json>): map<string, Attributes> {
    map login | login in entries :: AttributesOf(AsObject(entries[login]))
  }

  /**
   * Bot::LoadViewerAttributes on a parsed document: every viewer of the
   * document replaces the one held under the same login; the others are kept.
   * A document that does not parse changes nothing.
   */
  function Loaded(viewers: map<string, Attributes>, document: Option<Json>): map<string, Attributes> {
    if document.None? then viewers else viewers + Read(AsObject(document.value))
  }

  /** The object written for one viewer (bot.cpp:328-332): all three flags, the welcome cleared on a reset. */
  function RecordOf(a: Attributes, resetWelcomes: bool): map<string, Json> {
    map[COMMANDS := Bool(a.commands), WELCOMED := Bool(if resetWelcomes then false else a.welcomed), BOT := Bool(a.bot)]
  }

  /** Bot::SaveViewerAttributes: one member per viewer, keyed by login. */
  function Saved(viewers: map<string, Attributes>, resetWelcomes: bool): map<string, Json> {
    map login | login in viewers :: Object(RecordOf(viewers[login], resetWelcomes))
  }

  /** A written record is read back as the attributes it was written from (with the welcome reset if asked). */
  lemma RecordRoundTrip(a: Attributes, resetWelcomes: bool)
    ensures AttributesOf(RecordOf(a, resetWelcomes)) == a.(welcomed := a.welcomed && !resetWelcomes)
  {
  }

  /**
   * Saving and loading gives back the same viewers, with every welcome cleared
   * when the save reset them; loading the saved document over any table leaves
   * exactly the saved viewers' entries in place of theirs.
   */
  lemma SaveLoadRoundTrip(viewers: map<string, Attributes>, resetWelcomes: bool, before: map<string, Attributes>)
    ensures Loaded(map[], Some(Object(Saved(viewers, resetWelcomes)))).Keys == viewers.Keys
    ensures forall login :: login in viewers ==>
              Loaded(before, Some(Object(Saved(viewers, resetWelcomes))))[login]
              == viewers[login].(welcomed := viewers[login].welcomed && !resetWelcomes)
    ensures !resetWelcomes ==> Loaded(map[], Some(Object(Saved(viewers, false)))) == viewers
  {
    var loaded := Loaded(before, Some(Object(Saved(viewers, resetWelcomes))));
    forall login | login in viewers
      ensures loaded[login] == viewers[login].(welcomed := viewers[login].welcomed && !resetWelcomes)
    {
      RecordRoundTrip(viewers[login], resetWelcomes);
    }
    if !resetWelcomes {
      var reread := Loaded(map[], Some(Object(Saved(viewers, false))));
      forall login | login in viewers
        ensures reread[login] == viewers[login]
      {
        RecordRoundTrip(viewers[login], false);
      }
    }
  }

  /**
   * Bot::LoadViewerAttributes's loop (bot.cpp:306-315): the viewers of the
   * document are stored one at a time, each replacing the entry under its login.
   */
  method Load(viewers: map<string, Attributes>, document: Option<Json>) returns (loaded: map<string, Attributes>, ok: bool)
    ensures ok <==> document.Some?
    ensures loaded == Loaded(viewers, document)
  {
    if document.None? {
      return viewers, false;
    }
    var entries := AsObject(document.value);
    var left := entries.Keys;
    loaded := viewers;
    while left != {}
      invariant left <= entries.Keys
      invariant loaded.Keys == viewers.Keys + (entries.Keys - left)
      invariant forall login :: login in entries && login !in left ==> loaded[login] == AttributesOf(AsObject(entries[login]))
      invariant forall login :: login in viewers && login !in entries ==> loaded[login] == viewers[login]
      invariant forall login :: login in viewers && login in left ==> loaded[login] == viewers[login]
      decreases left
    {
      var login :| login in left;
      loaded := loaded[login := AttributesOf(AsObject(entries[login]))];
      left := left - {login};
    }
    ReadOver(viewers, entries, loaded);
    ok := true;
  }

  /** A table holding the old viewers and every viewer of the document, read, is the loaded table. */
  lemma ReadOver(viewers: map<string, Attributes>, entries: map<string, Json>, loaded: map<string, Attributes>)
    requires loaded.Keys == viewers.Keys + entries.Keys
    requires forall login :: login in entries ==> loaded[login] == AttributesOf(AsObject(entries[login]))
    requires forall login :: login in viewers && login !in entries ==> loaded[login] == viewers[login]
    ensures loaded == viewers + Read(entries)
  {
  }

  /** Bot::SaveViewerAttributes's loop (bot.cpp:324-334): one record per viewer. */
  method Save(viewers: map<string, Attributes>, resetWelcomes: bool) returns (entries: map<string, Json>)
    ensures entries == Saved(viewers, resetWelcomes)
  {
    var left := viewers.Keys;
    entries := map[];
    while left != {}
      invariant left <= viewers.Keys
      invariant entries.Keys == viewers.Keys - left
      invariant forall login :: login in entries ==> entries[login] == Object(RecordOf(viewers[login], resetWelcomes))
      decreases left
    {
      var login :| login in left;
      entries := entries[login := Object(RecordOf(viewers[login], resetWelcomes))];
      left := left - {login};
    }
  }

  /** What Bot::DispatchArrival does before the viewer lookup (bot.cpp:474-483). */
  datatype Arrival = Arrival(viewers: map<string, Attributes>, lookUp: bool)

  /**
   * A bot or an already welcomed viewer is left alone; a login not seen before
   * is recorded with default attributes; the lookup that leads to the welcome
   * is requested unless the arrival sound is switched off (empty).
   */
  function Arrive(viewers: map<string, Attributes>, login: string, arrivalSound: string): Arrival {
    if login in viewers && (viewers[login].bot || viewers[login].welcomed) then Arrival(viewers, false)
    else
      var recorded := if login in viewers then viewers else viewers[login := Unknown()];
      Arrival(recorded, arrivalSound != [])
  }

  /** The arrival callback's last step (bot.cpp:493): the viewer is marked welcomed. */
  function Welcome(viewers: map<string, Attributes>, login: string): map<string, Attributes> {
    if login in viewers then viewers[login := viewers[login].(welcomed := true)] else viewers
  }

  /**
   * An arrival never changes a known viewer and never forgets one; it adds the
   * login when new; it asks for a lookup exactly when the sound is set and the
   * viewer is neither a bot nor already welcomed.
   */
  lemma ArriveMeaning(viewers: map<string, Attributes>, login: string, arrivalSound: string)
    ensures Arrive(viewers, login, arrivalSound).viewers.Keys == viewers.Keys + {login}
    ensures forall k :: k in viewers ==> Arrive(viewers, login, arrivalSound).viewers[k] == viewers[k]
    ensures login !in viewers ==> Arrive(viewers, login, arrivalSound).viewers[login] == Unknown()
    ensures Arrive(viewers, login, arrivalSound).lookUp <==>
            arrivalSound != [] && (login !in viewers || (!viewers[login].bot && !viewers[login].welcomed))
  {
  }

  /** A welcomed viewer is not welcomed again: after the welcome, arriving asks for no lookup and changes nothing. */
  lemma WelcomedOnce(viewers: map<string, Attributes>, login: string, arrivalSound: string)
    requires login in viewers
    ensures var after := Welcome(viewers, login);
      Arrive(after, login, arrivalSound) == Arrival(after, false)
  {
  }

  /** A welcome survives a save without a reset, and a reset makes every viewer welcome again. */
  lemma WelcomePersists(viewers: map<string, Attributes>, login: string, arrivalSound: string)
    requires login in viewers && !viewers[login].bot
    ensures var after := Welcome(viewers, login);
      && Loaded(map[], Some(Object(Saved(after, false))))[login].welcomed
      && Arrive(Loaded(map[], Some(Object(Saved(after, true)))), login, arrivalSound).lookUp == (arrivalSound != [])
  {
    var after := Welcome(viewers, login);
    SaveLoadRoundTrip(after, false, map[]);
    SaveLoadRoundTrip(after, true, map[]);
  }
}
