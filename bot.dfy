/**
 * The Bot object of bot.cpp: its command tables, its viewer attributes and
 * the signals it emits, with the methods that change them. Signals are
 * appended to `events`; the asynchronous viewer lookups are events too, and
 * what happens when a lookup answers is a method of its own.
 */
module Celeste {
  import opened Wrappers
  import opened Entities
  import opened Json
  import opened Registry
  import Serialization
  import opened Dispatch
  import opened Viewers
  import Line
  import Chat
  import Text

  /** The settings the core reads (QSettings entries of the events and commands categories). */
  datatype Settings = Settings(
    names: CommandNames,
    textWallThreshold: int,
    textWallSound: string,
    arrivalSound: string,
    hostSound: string,
    emoteDirectory: string,
    badgeIcons: map<(string, string), string>)

  /** The settings' fallbacks: the built-in command names, a wall of text over 400 characters, no sounds. */
  function DefaultSettings(emoteDirectory: string): Settings {
    Settings(DefaultNames(), 400, [], [], [], emoteDirectory, map[])
  }

  /** The login Twitch sends its system notices from. */
  const SYSTEM_ACCOUNT: string := "jtv"

  /** A signal of the bot, or a viewer lookup it started. */
  datatype Event =
    | AnnounceHost(host: string, sound: string)
    | AnnounceDeniedCommand(name: string)
    | CommandLookup(login: string, command: Command, message: Chat.Message)  // the requester is looked up, then the command runs
    | Performed(effect: Effect)
    | ArrivalLookup(login: string)                                           // the arriving viewer is looked up, then welcomed
    | AnnounceArrival(display: string, sound: string)                        // shown under the viewer's display name
    | AnnounceTextWall(line: string, sound: string)
    | ShowChatMessage(shown: Chat.Message)

  /** What DispatchCommand emits: the denial, or the lookup of the requester that leads to the effect. */
  function DispatchEvents(commands: map<string, Command>, name: string, message: Chat.Message, login: string): seq<Event> {
    match Decide(commands, name, message)
    case Unknown => []
    case Denied(c) => [AnnounceDeniedCommand(c.name)]
    case Accepted(c) => [CommandLookup(login, c, message)]
  }

  /** The viewers and the signals one chat line leaves behind. */
  datatype Outcome = Outcome(viewers: map<string, Attributes>, events: seq<Event>)

  /** The message as shown: its text (the action unwrapped) escaped for HTML, the action flag, and the emotes named. */
  function Shown(m: Chat.Message, text: string, action: bool, directory: string): Chat.Message {
    m.(text := Text.HtmlEscaped(text), action := m.action || action, emotes := Chat.NamedEmotes(text, directory, m.emotes))
  }

  /**
   * The last signals of a shown line (bot.cpp:613-626), given its text with
   * the action unwrapped: the wall-of-text announcement when the characters
   * outside emotes exceed the threshold, then the message itself.
   */
  function Display(s: Settings, m: Chat.Message, message: string, text: string, action: bool): seq<Event> {
    var wall := if Chat.TextWall(text, m.emotes, s.textWallThreshold) then [AnnounceTextWall(message, s.textWallSound)] else [];
    wall + [ShowChatMessage(Shown(m, text, action, s.emoteDirectory))]
  }

  /**
   * The end of Bot::ParseChatMessage (bot.cpp:603-627) for a line that is
   * neither a notice nor a command that ran: the line counts as an arrival
   * unless the broadcaster wrote it, and is then displayed.
   */
  function ShowLine(s: Settings, viewers: map<string, Attributes>, m: Chat.Message, login: string, message: string): Outcome {
    var arrival := Arriving(s, viewers, m, login);
    var unwrapped := Chat.ActionOf(message);
    Outcome(arrival.viewers, Lookups(arrival, login) + Display(s, m, message, unwrapped.0, unwrapped.1))
  }

  /** A line from anyone but the broadcaster counts as an arrival (bot.cpp:603-606). */
  function Arriving(s: Settings, viewers: map<string, Attributes>, m: Chat.Message, login: string): Arrival {
    if m.broadcaster then Arrival(viewers, false) else Arrive(viewers, login, s.arrivalSound)
  }

  /** The viewer lookup an arrival starts, if any. */
  function Lookups(arrival: Arrival, login: string): seq<Event> {
    if arrival.lookUp then [ArrivalLookup(login)] else []
  }

  /** Appending is associative (a helper for the signal logs). */
  lemma Appended<T>(a: seq<T>, b: seq<T>, c: seq<T>)
    ensures (a + b) + c == a + (b + c)
    ensures a + [] == a
  {
  }

  /**
   * A shown line is shown once, last, after at most an arrival lookup and a
   * wall-of-text announcement.
   */
  lemma ShowLineEvents(s: Settings, viewers: map<string, Attributes>, m: Chat.Message, login: string, message: string)
    ensures var o := ShowLine(s, viewers, m, login, message);
      && 1 <= |o.events| <= 3
      && o.events[|o.events| - 1] == ShowChatMessage(Shown(m, Chat.ActionOf(message).0, Chat.ActionOf(message).1, s.emoteDirectory))
      && (forall k :: 0 <= k < |o.events| - 1 ==> o.events[k].ArrivalLookup? || o.events[k].AnnounceTextWall?)
  {
    var text, action := Chat.ActionOf(message).0, Chat.ActionOf(message).1;
    var arrival := Arriving(s, viewers, m, login);
    assert ShowLine(s, viewers, m, login, message).events == Lookups(arrival, login) + Display(s, m, message, text, action);
    LookupsShape(arrival, login);
    DisplayShape(s, m, message, text, action);
    Framed(Lookups(arrival, login), Display(s, m, message, text, action), ShowChatMessage(Shown(m, text, action, s.emoteDirectory)));
  }

  lemma LookupsShape(arrival: Arrival, login: string)
    ensures |Lookups(arrival, login)| <= 1
    ensures forall k :: 0 <= k < |Lookups(arrival, login)| ==> Lookups(arrival, login)[k].ArrivalLookup?
  {
  }

  lemma DisplayShape(s: Settings, m: Chat.Message, message: string, text: string, action: bool)
    ensures var display := Display(s, m, message, text, action);
      && 1 <= |display| <= 2 && display[|display| - 1] == ShowChatMessage(Shown(m, text, action, s.emoteDirectory))
      && (|display| == 2 ==> display[0].AnnounceTextWall?)
  {
  }

  /** Lookups of at most one arrival, then a display ending in the message. */
  lemma Framed(lookups: seq<Event>, display: seq<Event>, last: Event)
    requires |lookups| <= 1 && (forall k :: 0 <= k < |lookups| ==> lookups[k].ArrivalLookup?)
    requires 1 <= |display| <= 2 && display[|display| - 1] == last && (|display| == 2 ==> display[0].AnnounceTextWall?)
    ensures var events := lookups + display;
      && 1 <= |events| <= 3 && events[|events| - 1] == last
      && (forall k :: 0 <= k < |events| - 1 ==> events[k].ArrivalLookup? || events[k].AnnounceTextWall?)
  {
  }

  /** The wall of text is announced exactly when the rule says so. */
  lemma ShowLineWall(s: Settings, viewers: map<string, Attributes>, m: Chat.Message, login: string, message: string)
    ensures AnnounceTextWall(message, s.textWallSound) in ShowLine(s, viewers, m, login, message).events <==>
            Chat.TextWall(Chat.ActionOf(message).0, m.emotes, s.textWallThreshold)
  {
  }

  /** The broadcaster's lines change no viewer and start no lookup; anyone else's line is an arrival. */
  lemma ShowLineArrival(s: Settings, viewers: map<string, Attributes>, m: Chat.Message, login: string, message: string)
    ensures var o := ShowLine(s, viewers, m, login, message);
      && (m.broadcaster ==> o.viewers == viewers && ArrivalLookup(login) !in o.events)
      && (!m.broadcaster ==> o.viewers == Arrive(viewers, login, s.arrivalSound).viewers)
      && (!m.broadcaster ==> (ArrivalLookup(login) in o.events <==> Arrive(viewers, login, s.arrivalSound).lookUp))
  {
  }

  /** The shown message carries the escaped action text and every emote named from it. */
  lemma ShownMeaning(m: Chat.Message, text: string, action: bool, directory: string)
    ensures var shown := Shown(m, text, action, directory);
      && shown.text == Text.HtmlEscaped(text)
      && Text.HtmlUnescaped(shown.text) == text
      && (shown.action <==> m.action || action)
      && |shown.emotes| == |m.emotes|
      && (forall i :: 0 <= i < |m.emotes| ==>
            shown.emotes[i].name == Chat.EmoteName(text, m.emotes[i]) && shown.emotes[i].start == m.emotes[i].start)
      && shown.sender == m.sender && shown.color == m.color && shown.badges == m.badges
      && shown.broadcaster == m.broadcaster && shown.moderator == m.moderator
  {
    Text.HtmlEscapedRoundTrip(text);
  }

  /**
   * Bot::ParseChatMessage once the header is read and the login known
   * (bot.cpp:586-627): a hosting notice from the system account is announced
   * and ends the line; a `!command` is tried; otherwise the line is shown.
   */
  function Respond(s: Settings, commands: map<string, Command>, viewers: map<string, Attributes>,
                   header: Chat.Message, login: string, message: string): Outcome
  {
    if login == SYSTEM_ACCOUNT && HostNotice(message).Some? then
      Outcome(viewers, [AnnounceHost(HostNotice(message).value, s.hostSound)])
    else Reply(s, commands, viewers, header, login, message)
  }

  /** A line that is not a hosting notice (bot.cpp:593-627): a `!command` is attempted, anything else shown. */
  function Reply(s: Settings, commands: map<string, Command>, viewers: map<string, Attributes>,
                 header: Chat.Message, login: string, message: string): Outcome
  {
    var command := Line.CommandOf(message);
    if command.None? then ShowLine(s, viewers, header, login, message)
    else Attempt(s, commands, viewers, header.(text := command.value.1), command.value.0, login, message)
  }

  /**
   * A `!command` line (bot.cpp:593-601): the command is dispatched with the
   * line's argument as the message text; when it runs the line ends there,
   * otherwise the line goes on to be shown.
   */
  function Attempt(s: Settings, commands: map<string, Command>, viewers: map<string, Attributes>,
                   m: Chat.Message, name: string, login: string, message: string): Outcome
  {
    var attempt := DispatchEvents(commands, name, m, login);
    if Dispatched(commands, name, m) then Outcome(viewers, attempt)
    else
      var shown := ShowLine(s, viewers, m, login, message);
      Outcome(shown.viewers, attempt + shown.events)
  }

  /** Bot::ParseChatMessage (bot.cpp:501-627) as a whole: nothing happens when the header throws or there is no login. */
  function Handle(s: Settings, commands: map<string, Command>, viewers: map<string, Attributes>,
                  prefix: string, source: string, message: string): Outcome
  {
    match Line.Header(prefix, s.badgeIcons)
    case Err(_) => Outcome(viewers, [])
    case Ok(header) =>
      match Line.LoginOf(source)
      case None => Outcome(viewers, [])
      case Some(login) => Respond(s, commands, viewers, header, login, message)
  }

  /**
   * A line that is not a hosting notice is shown when it is not a `!command`,
   * and otherwise attempted as the command it names, with its argument as the text.
   */
  lemma RespondMeaning(s: Settings, commands: map<string, Command>, viewers: map<string, Attributes>,
                       header: Chat.Message, login: string, message: string)
    requires !(login == SYSTEM_ACCOUNT && HostNotice(message).Some?)
    ensures message == [] || message[0] != '!' ==>
              Respond(s, commands, viewers, header, login, message) == ShowLine(s, viewers, header, login, message)
    ensures message != [] && message[0] == '!' ==>
              var (name, text) := Line.CommandOf(message).value;
              Respond(s, commands, viewers, header, login, message) == Attempt(s, commands, viewers, header.(text := text), name, login, message)
  {
    Line.CommandMeaning(message);
  }

  /**
   * A command that runs ends the line: its requester is looked up, nothing is
   * shown and no viewer changes. A command that does not run is at most
   * announced as denied, and the line goes on to be shown.
   */
  lemma AttemptMeaning(s: Settings, commands: map<string, Command>, viewers: map<string, Attributes>,
                       m: Chat.Message, name: string, login: string, message: string)
    ensures var o := Attempt(s, commands, viewers, m, name, login, message);
      if Dispatched(commands, name, m) then
        o.viewers == viewers && o.events == [CommandLookup(login, Decide(commands, name, m).command, m)]
      else
        var shown := ShowLine(s, viewers, m, login, message);
        && o.viewers == shown.viewers
        && (name !in commands ==> o.events == shown.events)
        && (name in commands ==> o.events == [AnnounceDeniedCommand(commands[name].name)] + shown.events)
  {
    if !Dispatched(commands, name, m) && name in commands {
      assert Decide(commands, name, m).command.name == commands[name].name;
    }
  }

  /** A hosting notice from the system account is announced and nothing else happens. */
  lemma HostNoticeEndsLine(s: Settings, commands: map<string, Command>, viewers: map<string, Attributes>,
                           prefix: string, source: string, message: string)
    requires Line.Header(prefix, s.badgeIcons).Ok? && Line.LoginOf(source) == Some(SYSTEM_ACCOUNT)
    requires Text.Contains(message, "is now hosting you.") && message[0] != ' '
    ensures Handle(s, commands, viewers, prefix, source, message)
            == Outcome(viewers, [AnnounceHost(Text.First(message, ' ').value, s.hostSound)])
  {
    HostNoticeMeaning(message);
  }

  /** A line without a login, or whose emote bounds do not parse, leaves everything as it was. */
  lemma UnreadableLineIgnored(s: Settings, commands: map<string, Command>, viewers: map<string, Attributes>,
                              prefix: string, source: string, message: string)
    requires Line.Header(prefix, s.badgeIcons).Err? || source == [] || source[0] == ' '
    ensures Handle(s, commands, viewers, prefix, source, message) == Outcome(viewers, [])
  {
    Line.LoginMeaning(source);
  }

  class Bot {
    const settings: Settings
    /** The command lookup, keyed by the names the commands answer to. */
    var commands: map<string, Command>
    /** nativeCommandFlags: the built-in behaviour of each native command. */
    var flags: map<string, NativeFlag>
    /** The attributes of every viewer seen, keyed by login. */
    var viewers: map<string, Attributes>
    /** Every signal emitted and lookup started, in order. */
    var events: seq<Event>

    /**
     * Bot::Bot (bot.cpp:63-114): the fifteen built-in commands are declared in
     * order under their configured names, and the viewer attributes are loaded.
     */
    constructor (settings: Settings, viewerDocument: Option<Json>)
      ensures this.settings == settings
      ensures Tables(commands, flags) == Declared(settings.names)
      ensures viewers == Loaded(map[], viewerDocument)
      ensures events == []
    {
      this.settings := settings;
      commands, flags, viewers, events := map[], map[], map[], [];
      new;
      DeclareCommands(Declarations(settings.names));
      var loaded, _ := Viewers.Load(viewers, viewerDocument);
      viewers := loaded;
    }

    /** The constructor's run of DeclareCommand calls (bot.cpp:97-111), in order. */
    method DeclareCommands(ds: seq<(Command, NativeFlag)>)
      modifies this
      ensures Tables(commands, flags) == DeclareAll(old(Tables(commands, flags)), ds)
      ensures viewers == old(viewers) && events == old(events)
    {
      assert ds[0..] == ds;
      for i := 0 to |ds|
        invariant DeclareAll(Tables(commands, flags), ds[i..]) == DeclareAll(old(Tables(commands, flags)), ds)
        invariant viewers == old(viewers) && events == old(events)
      {
        assert ds[i..] == [ds[i]] + ds[i + 1..];
        DeclareCommand(ds[i].0, ds[i].1);
      }
    }

    /** Bot::DeclareCommand (bot.cpp:124-128): both tables get the name only where it is free. */
    method DeclareCommand(command: Command, flag: NativeFlag)
      modifies this
      ensures Tables(commands, flags) == Declare(old(Tables(commands, flags)), command, flag)
      ensures viewers == old(viewers) && events == old(events)
    {
      if command.name !in commands {
        commands := commands[command.name := command];
      }
      if command.name !in flags {
        flags := flags[command.name := flag];
      }
    }

    /**
     * Bot::DeserializeCommands (bot.cpp:148-185): the records of the document
     * are added to the tables; the lookup is returned, and `threw` tells that an
     * alias of a native command without a flag raised std::out_of_range, which
     * leaves the tables as they were at that point.
     */
    method DeserializeCommands(document: Json) returns (lookup: map<string, Command>, threw: bool)
      modifies this
      ensures Registry.Load(Tables(commands, flags), threw) == Deserialized(old(Tables(commands, flags)), document)
      ensures lookup == commands
      ensures viewers == old(viewers) && events == old(events)
    {
      var l := Registry.Deserialize(Tables(commands, flags), document);
      commands, flags := l.tables.commands, l.tables.flags;
      lookup, threw := commands, l.threw;
    }

    /**
     * Bot::SerializeCommands (bot.cpp:187-268) over `entries`, the lookup's
     * entries in its iteration order: the document is returned, and the flag
     * table keeps only the flags of full native commands. The lookup itself is
     * swapped with itself, which leaves it as it was.
     */
    method SerializeCommands(entries: seq<Command>) returns (document: Json)
      modifies this
      ensures Serialization.Saved(document, flags) == Serialization.Serialized(entries, old(flags))
      ensures commands == old(commands) && viewers == old(viewers) && events == old(events)
    {
      var kept;
      document, kept := Serialization.Serialize(entries, flags);
      flags := kept;
    }

    /**
     * Bot::DispatchCommand (bot.cpp:667-758): whether the command runs; a denial
     * is announced, and a command that runs starts the lookup of its requester.
     */
    method DispatchCommand(name: string, message: Chat.Message, login: string) returns (dispatched: bool)
      modifies this
      ensures dispatched == Dispatched(commands, name, message)
      ensures events == old(events) + DispatchEvents(commands, name, message, login)
      ensures commands == old(commands) && flags == old(flags) && viewers == old(viewers)
    {
      if name !in commands {
        return false;
      }
      var command := if message.text == [] then commands[name] else WithMessage(commands[name], message.text);
      if command.protect && !message.Privileged() {
        events := events + [AnnounceDeniedCommand(command.name)];
        return false;
      }
      events := events + [CommandLookup(login, command, message)];
      dispatched := true;
    }

    /** The requester has been looked up (bot.cpp:681-754): the command's effect takes place. */
    method CommandRecognized(command: Command, message: Chat.Message, login: string, display: string)
      modifies this
      ensures events == old(events) + [Performed(EffectOf(command, flags, message, login, display))]
      ensures commands == old(commands) && flags == old(flags) && viewers == old(viewers)
    {
      events := events + [Performed(EffectOf(command, flags, message, login, display))];
    }

    /** Bot::DispatchChatNotification (bot.cpp:760-770): a hosting notice is announced with the host sound. */
    method DispatchChatNotification(message: string) returns (handled: bool)
      modifies this
      ensures handled == HostNotice(message).Some?
      ensures events == old(events) + (if handled then [AnnounceHost(HostNotice(message).value, settings.hostSound)] else [])
      ensures commands == old(commands) && flags == old(flags) && viewers == old(viewers)
    {
      handled := false;
      if Text.Contains(message, "is now hosting you.") {
        var host := Text.First(message, ' ');
        if host.Some? {
          events := events + [AnnounceHost(host.value, settings.hostSound)];
          handled := true;
        }
      }
    }

    /** Bot::DispatchArrival (bot.cpp:474-483): the viewer is recorded and, if due a welcome, looked up. */
    method DispatchArrival(login: string)
      modifies this
      ensures viewers == Arrive(old(viewers), login, settings.arrivalSound).viewers
      ensures events == old(events) + (if Arrive(old(viewers), login, settings.arrivalSound).lookUp then [ArrivalLookup(login)] else [])
      ensures commands == old(commands) && flags == old(flags)
    {
      if login in viewers {
        if viewers[login].bot || viewers[login].welcomed {
          return;
        }
      } else {
        viewers := viewers[login := Viewers.Unknown()];
      }
      if settings.arrivalSound == [] {
        return;
      }
      events := events + [ArrivalLookup(login)];
    }

    /**
     * The arriving viewer has been looked up (bot.cpp:486-495) and is known by
     * its login and its display name. `announce` says the viewer is not the
     * administrator and no raid is being announced; the arrival is then
     * announced under the display name, the viewer's login marked welcomed and
     * the attributes saved, and the saved document is returned. A login that
     * is not recorded makes `at` throw, and nothing is saved.
     */
    method ArrivalRecognized(login: string, display: string, announce: bool) returns (saved: Option<map<string, Json>>)
      modifies this
      ensures !announce ==> saved == None && viewers == old(viewers) && events == old(events)
      ensures announce ==> events == old(events) + [AnnounceArrival(display, settings.arrivalSound)]
      ensures announce && login in old(viewers) ==>
                viewers == Welcome(old(viewers), login) && saved == Some(Saved(viewers, false))
      ensures login !in old(viewers) ==> viewers == old(viewers) && saved == None
      ensures commands == old(commands) && flags == old(flags)
    {
      if !announce {
        return None;
      }
      events := events + [AnnounceArrival(display, settings.arrivalSound)];
      if login !in viewers {
        return None;
      }
      viewers := viewers[login := viewers[login].(welcomed := true)];
      var entries := SaveViewerAttributes(false);
      saved := Some(entries);
    }

    /** Bot::LoadViewerAttributes (bot.cpp:287-318) on the parsed file, missing when it does not parse. */
    method LoadViewerAttributes(document: Option<Json>) returns (ok: bool)
      modifies this
      ensures ok <==> document.Some?
      ensures viewers == Loaded(old(viewers), document)
      ensures commands == old(commands) && flags == old(flags) && events == old(events)
    {
      var loaded;
      loaded, ok := Viewers.Load(viewers, document);
      viewers := loaded;
    }

    /** Bot::SaveViewerAttributes (bot.cpp:320-335): the document written, with welcomes cleared on a reset. */
    method SaveViewerAttributes(resetWelcomes: bool) returns (entries: map<string, Json>)
      ensures entries == Saved(viewers, resetWelcomes)
    {
      entries := Save(viewers, resetWelcomes);
    }

    /**
     * The display of a line (bot.cpp:613-626), given its text with the action
     * unwrapped: the emotes are named, the wall announced and the message shown.
     */
    method DisplayLine(m: Chat.Message, message: string, text: string, action: bool)
      modifies this
      ensures events == old(events) + Display(settings, m, message, text, action)
      ensures commands == old(commands) && flags == old(flags) && viewers == old(viewers)
    {
      var shown := m;
      if action {
        shown := shown.(action := true);
      }
      var named, count := Chat.NameEmotes(text, settings.emoteDirectory, shown.emotes);
      if |text| - count > settings.textWallThreshold {
        events := events + [AnnounceTextWall(message, settings.textWallSound)];
      }
      shown := shown.(text := Text.HtmlEscaped(text), emotes := named);
      events := events + [ShowChatMessage(shown)];
    }

    /** The end of Bot::ParseChatMessage for a line that is shown (bot.cpp:603-627). */
    method ShowChatLine(m: Chat.Message, login: string, message: string)
      modifies this
      ensures var o := ShowLine(settings, old(viewers), m, login, message);
        viewers == o.viewers && events == old(events) + o.events
      ensures commands == old(commands) && flags == old(flags)
    {
      ghost var before := events;
      ghost var arrival := Arriving(settings, viewers, m, login);
      if !m.broadcaster {
        DispatchArrival(login);
      } else {
        Appended(before, [], []);
      }
      assert events == before + Lookups(arrival, login);
      var (text, action) := Chat.ActionOf(message);
      DisplayLine(m, message, text, action);
      Appended(before, Lookups(arrival, login), Display(settings, m, message, text, action));
    }

    /** Bot::ParseChatMessage once the header is read and the login known (bot.cpp:586-627). */
    method RespondTo(header: Chat.Message, login: string, message: string)
      modifies this
      ensures var o := Respond(settings, old(commands), old(viewers), header, login, message);
        viewers == o.viewers && events == old(events) + o.events
      ensures commands == old(commands) && flags == old(flags)
    {
      if login == SYSTEM_ACCOUNT {
        var handled := DispatchChatNotification(message);
        if handled {
          return;
        }
        Appended(old(events), [], []);
      }
      ReplyTo(header, login, message);
    }

    /** A line that is not a hosting notice (bot.cpp:593-627). */
    method ReplyTo(header: Chat.Message, login: string, message: string)
      modifies this
      ensures var o := Reply(settings, old(commands), old(viewers), header, login, message);
        viewers == o.viewers && events == old(events) + o.events
      ensures commands == old(commands) && flags == old(flags)
    {
      var (first, rest) := Text.Take(message, ' ');
      if first.Some? && |first.value| > 0 && first.value[0] == '!' {
        TryCommand(header.(text := Text.Trimmed(rest)), first.value[1..], login, message);
      } else {
        ShowChatLine(header, login, message);
      }
    }

    /** A `!command` line (bot.cpp:593-601): dispatched, and shown when it does not run. */
    method TryCommand(m: Chat.Message, name: string, login: string, message: string)
      modifies this
      ensures var o := Attempt(settings, old(commands), old(viewers), m, name, login, message);
        viewers == o.viewers && events == old(events) + o.events
      ensures commands == old(commands) && flags == old(flags)
    {
      var dispatched := DispatchCommand(name, m, login);
      if dispatched {
        return;
      }
      ShowChatLine(m, login, message);
      Appended(old(events), DispatchEvents(commands, name, m, login), ShowLine(settings, old(viewers), m, login, message).events);
    }

    /**
     * Bot::ParseChatMessage (bot.cpp:501-627): one chat line with its tag
     * prefix, its source and its text.
     */
    method ParseChatMessage(prefix: string, source: string, message: string)
      modifies this
      ensures var o := Handle(settings, old(commands), old(viewers), prefix, source, message);
        viewers == o.viewers && events == old(events) + o.events
      ensures commands == old(commands) && flags == old(flags)
    {
      var header := Line.ReadHeader(prefix, settings.badgeIcons);
      if header.Err? {
        return;
      }
      var hostmask := Text.Take(source, ' ').0;
      if hostmask.None? {
        return;
      }
      var user := Text.Take(hostmask.value, '!').0;
      if user.None? {
        return;
      }
      RespondTo(header.value, user.value, message);
    }
  }
}
