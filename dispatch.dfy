/**
 * The command side of the bot (bot.cpp:667-924): deciding whether a chat
 * command runs, which effect it has once the requester's viewer record is in,
 * and the pure parts of the effects themselves (the video to play, the
 * command list, the host notice, the volume request, the uptime split and the
 * panic text). The effects are values: playing media, talking to the Twitch
 * API and emitting signals to the window are not modelled.
 */
module Dispatch {
  import opened Wrappers
  import opened Entities
  import Text
  import Convert
  import Chat
  import opened Registry
  import Serialization

  /** What Bot::DispatchCommand decides before anything is scheduled. */
  datatype Decision =
    | Unknown                  // no command has that name: the line is not a command
    | Denied(command: Command) // protected, and the requester is neither broadcaster nor moderator
    | Accepted(command: Command)

  /**
   * The command as dispatched: the stored one when the line carries no text
   * after the command name, otherwise the stored one carrying that text as its
   * message (bot.cpp:670).
   */
  function Invoked(stored: Command, text: string): Command {
    if text == [] then stored else WithMessage(stored, text)
  }

  /** Bot::DispatchCommand's decision (bot.cpp:667-678). */
  function Decide(commands: map<string, Command>, name: string, message: Chat.Message): Decision {
    if name !in commands then Unknown
    else
      var command := Invoked(commands[name], message.text);
      if command.protect && !message.Privileged() then Denied(command) else Accepted(command)
  }

  /** What DispatchCommand returns: whether the line was taken as a command that runs. */
  function Dispatched(commands: map<string, Command>, name: string, message: Chat.Message): bool {
    Decide(commands, name, message).Accepted?
  }

  /**
   * A command runs exactly when its name is known and it is unprotected or the
   * requester is privileged; the command that runs is the stored one with the
   * line's text as its message when there is text, and otherwise unchanged.
   */
  lemma DecideMeaning(commands: map<string, Command>, name: string, message: Chat.Message)
    ensures Dispatched(commands, name, message) <==>
            name in commands && (!commands[name].protect || message.broadcaster || message.moderator)
    ensures Decide(commands, name, message).Denied? <==>
            name in commands && commands[name].protect && !message.broadcaster && !message.moderator
    ensures !Decide(commands, name, message).Unknown? ==>
              var c := Decide(commands, name, message).command;
              && c.name == commands[name].name && c.kind == commands[name].kind
              && c.path == commands[name].path && c.random == commands[name].random
              && c.protect == commands[name].protect && c.description == commands[name].description
              && c.message == (if message.text == [] then commands[name].message else message.text)
  {
  }

  /** What Bot::DispatchVideo does with a video command (bot.cpp:772-778). */
  datatype VideoPlay =
    | PlayFile(path: string)       // play the command's path
    | PickFrom(directory: string)  // play a random video from the command's directory

  function VideoOf(command: Command): VideoPlay {
    if command.random then PickFrom(command.path) else PlayFile(command.path)
  }

  /** The outcome of Bot::DispatchRandomVideo once the directory has been listed. */
  datatype Pick =
    | NoVideos              // "No videos found" is printed
    | Play(path: string)
    | PickFailed(error: string)  // Random::Bounded threw

  /**
   * Bot::DispatchRandomVideo (bot.cpp:780-791): `videos` is the directory's
   * listing of `*.mp4` files; one of them is chosen at random and played by
   * its path in the directory.
   */
  method PickVideo(directory: string, videos: seq<string>) returns (r: Pick)
    ensures videos == [] <==> r == NoVideos
    ensures r.Play? ==> exists k :: 0 <= k < |videos| && r.path == directory + "/" + videos[k]
    ensures r.PickFailed? ==> |videos| > Convert.INT_MAX && r.error == "Container contains too many elements"
    ensures 0 < |videos| <= Convert.INT_MAX ==> r.Play?
  {
    if |videos| < 1 {
      return NoVideos;
    }
    var index := Convert.Bounded(videos);
    if index.Err? {
      return PickFailed(index.error);
    }
    r := Play(directory + "/" + videos[index.value]);
  }

  /** Nothing is listed without an `@`: the target of a shoutout (bot.cpp:858). */
  function WithoutAt(s: string): (r: string)
    ensures '@' !in r
    ensures |r| <= |s|
  {
    if s == [] then [] else (if s[0] == '@' then [] else [s[0]]) + WithoutAt(s[1..])
  }

  /** Removing `@` keeps every other character, in order. */
  lemma {:induction false} WithoutAtKeeps(s: string)
    ensures '@' !in s ==> WithoutAt(s) == s
    ensures WithoutAt(WithoutAt(s)) == WithoutAt(s)
    decreases |s|
  {
    if s != [] {
      WithoutAtKeeps(s[1..]);
      if s[0] == '@' {
        assert WithoutAt(s) == WithoutAt(s[1..]);
      } else {
        assert WithoutAt(s) == [s[0]] + WithoutAt(s[1..]);
        assert WithoutAt(WithoutAt(s))
            == WithoutAt([s[0]] + WithoutAt(s[1..]))
            == [s[0]] + WithoutAt(WithoutAt(s[1..]));
      }
    }
  }

  /** Bot::AdjustVibeVolume's reading of `<volume> <seconds>` (bot.cpp:920-932). */
  function VolumeRequest(message: string): (r: Result<(nat, nat)>)
  {
    var cut := Text.Take(message, ' ');
    var target, window := cut.0, cut.1;
    if target.None? then Err("Target volume is missing")
    else if |window| < 1 then Err("Duration for volume change is missing")
    else
      var volume := Convert.PositiveInteger(target.value);
      var seconds := Convert.PositiveInteger(window);
      // both conversions fail with the same text, so their order does not matter
      if volume.Err? then Err(volume.error)
      else if seconds.Err? then Err(seconds.error)
      else Ok((volume.value, seconds.value))
  }

  /** The volume request's outcome as the bot reports it. */
  datatype VolumeOutcome = SetVolume(volume: nat, seconds: nat) | Failed(report: string)

  function VolumeOutcomeOf(message: string): (r: VolumeOutcome)
    ensures r.Failed? <==> VolumeRequest(message).Err?
    ensures r.Failed? ==> r.report == "Failed to adjust volume: " + VolumeRequest(message).error
    ensures r.SetVolume? ==> VolumeRequest(message) == Ok((r.volume, r.seconds))
  {
    match VolumeRequest(message)
    case Ok(v) => SetVolume(v.0, v.1)
    case Err(e) => Failed("Failed to adjust volume: " + e)
  }

  /**
   * The request is refused with the first missing part: the volume, then the
   * duration; a refusal is always one of the three texts the parser raises.
   */
  lemma VolumeRequestRefusals(message: string)
    ensures message == [] ==> VolumeRequest(message) == Err("Target volume is missing")
    ensures message != [] && ' ' !in message ==> VolumeRequest(message) == Err("Duration for volume change is missing")
    ensures VolumeRequest(message).Err? ==>
              VolumeRequest(message).error in {"Target volume is missing", "Duration for volume change is missing",
                                               "Unable to convert text to positive number"}
  {
    if message != [] && ' ' !in message {
      Text.TakeMeaning(message, ' ');
    }
  }

  /**
   * The request is accepted only when it is an unsigned volume, one space, and
   * an unsigned number of seconds (each within 32 bits).
   */
  lemma VolumeRequestAccepted(message: string)
    requires VolumeRequest(message).Ok?
    ensures exists a, b :: message == a + " " + b && ' ' !in a &&
              Convert.ParseUnsigned(a) == Some(VolumeRequest(message).value.0) &&
              Convert.ParseUnsigned(b) == Some(VolumeRequest(message).value.1)
  {
    var target, window := Text.Take(message, ' ').0.value, Text.Take(message, ' ').1;
    assert message == target + " " + window && ' ' !in target by {
      Text.TakeMeaning(message, ' ');
      assert ' ' in message;
    }
  }

  /** Writing a volume and a duration in decimal and reading them back gives them back. */
  lemma VolumeRoundTrip(volume: nat, seconds: nat)
    requires volume <= Convert.UINT_MAX && seconds <= Convert.UINT_MAX
    ensures VolumeRequest(Convert.PositiveIntegerText(volume) + " " + Convert.PositiveIntegerText(seconds))
            == Ok((volume, seconds))
  {
    var a := Convert.PositiveIntegerText(volume);
    var b := Convert.PositiveIntegerText(seconds);
    var m := a + " " + b;
    assert Text.Take(m, ' ').0 == Some(a) && Text.Take(m, ' ').1 == b by {
      assert ' ' !in a;
      assert m[..|a|] == a && m[|a| + 1..] == b;
      Text.TakeAt(m, ' ', |a|);
    }
    Convert.PositiveIntegerRoundTrip(volume);
    Convert.PositiveIntegerRoundTrip(seconds);
  }

  /**
   * What the callback of Bot::DispatchCommand does once the requester's viewer
   * record has been looked up (bot.cpp:681-754): the effects are the signals
   * emitted and the helpers called, as values.
   */
  datatype Effect =
    | ShowVideo(video: VideoPlay)
    | PlayAudio(viewer: string, message: string, path: string)
    | Pulse(message: string)
    | SetAgenda(agenda: string)
    | SetCategory(category: string)
    | ShowCommandList
    | ToggleEmoteOnly
    | ShowFollowage(login: string)
    | EchoMessage(line: Chat.Message)  // the line re-emitted without its emotes, so its markup shows
    | RaisePanic(viewer: string)
    | GiveShoutout(target: string)
    | ShowSong
    | ShowTimezone
    | SetTitle(title: string)
    | ShowTime(total: bool)               // DispatchUptime(total)
    | ToggleVibe
    | AdjustVolume(outcome: VolumeOutcome)
    | NoEffect                            // a blank command
    | FlagMissing                         // nativeCommandFlags.at throws std::out_of_range

  /**
   * The effect of a dispatched command: by its type, and for a native command by
   * the native flag stored under its name. `login` and `display` are the
   * requester's login and display name from the viewer lookup.
   */
  function EffectOf(command: Command, flags: map<string, NativeFlag>, message: Chat.Message,
                    login: string, display: string): Effect
  {
    match command.kind
    case Video => ShowVideo(VideoOf(command))
    case Audio => PlayAudio(display, command.message, command.path)
    case Pulsar => Pulse(command.message)
    case Blank => NoEffect
    case Native =>
      if command.name !in flags then FlagMissing
      else match flags[command.name]
        case Agenda => SetAgenda(command.message)
        case Category => SetCategory(command.message)
        case CommandList => ShowCommandList
        case EmoteOnly => ToggleEmoteOnly
        case Followage => ShowFollowage(login)
        case Html => EchoMessage(message.(emotes := []))
        case Panic => RaisePanic(display)
        case Shoutout => GiveShoutout(WithoutAt(command.message))
        case Song => ShowSong
        case Timezone => ShowTimezone
        case Title => SetTitle(command.message)
        case TotalTime => ShowTime(true)
        case Uptime => ShowTime(false)
        case Vibe => ToggleVibe
        case Volume => AdjustVolume(VolumeOutcomeOf(command.message))
  }

  /**
   * An alias does what the command it was made from does, as long as a native
   * alias carries the same native flag as its parent.
   */
  lemma AliasActsAsParent(alias: string, parent: string, of: Command, flags: map<string, NativeFlag>,
                          message: Chat.Message, login: string, display: string)
    requires of.kind == Native ==> alias in flags && of.name in flags && flags[alias] == flags[of.name]
    ensures EffectOf(AliasOf(alias, parent, of), flags, message, login, display) == EffectOf(of, flags, message, login, display)
  {
  }

  /**
   * Once the command table has been written out, a native alias whose name is
   * not also a full native command has lost its flag, so dispatching it fails
   * on the flag lookup.
   */
  lemma SavedNativeAliasFails(entries: seq<Command>, flags: map<string, NativeFlag>, c: Command,
                              message: Chat.Message, login: string, display: string)
    requires c in entries && c.IsAlias() && c.kind == Native && c.name !in Serialization.FullNatives(entries)
    ensures EffectOf(c, Serialization.Serialized(entries, flags).flags, message, login, display) == FlagMissing
  {
    Serialization.SerializedFlags(entries, flags);
  }

  /**
   * With the built-in commands declared, the command named for the uptime shows
   * the total time and the one named for the total time shows the uptime: the
   * flags of the two are crossed where they are declared.
   */
  lemma UptimeShowsTotalTime(names: CommandNames, message: Chat.Message, login: string, display: string)
    requires names.Distinct()
    ensures names.uptime in Declared(names).commands && names.totalTime in Declared(names).commands
    ensures EffectOf(Declared(names).commands[names.uptime], Declared(names).flags, message, login, display) == ShowTime(true)
    ensures EffectOf(Declared(names).commands[names.totalTime], Declared(names).flags, message, login, display) == ShowTime(false)
  {
    DeclaredAt(names, 11);
    DeclaredAt(names, 12);
  }

  /** Every effect that reads the command's message reads it unchanged (or without `@` for a shoutout). */
  lemma EffectReadsMessage(c: Command, flags: map<string, NativeFlag>, message: Chat.Message, login: string, display: string)
    ensures var e := EffectOf(c, flags, message, login, display);
      && (e.PlayAudio? ==> e.message == c.message && e.path == c.path && e.viewer == display)
      && (e.Pulse? ==> e.message == c.message)
      && (e.SetAgenda? ==> e.agenda == c.message)
      && (e.SetCategory? ==> e.category == c.message)
      && (e.SetTitle? ==> e.title == c.message)
      && (e.GiveShoutout? ==> e.target == WithoutAt(c.message))
      && (e.AdjustVolume? ==> e.outcome == VolumeOutcomeOf(c.message))
      && (e.EchoMessage? ==> e.line == message.(emotes := []))
  {
  }

  /**
   * The text after the command name reaches the effect: whatever the effect
   * reads from the command's message, it reads the line's text when there is
   * one.
   */
  lemma LineTextReachesEffect(commands: map<string, Command>, flags: map<string, NativeFlag>, name: string,
                              message: Chat.Message, login: string, display: string)
    requires message.text != [] && Dispatched(commands, name, message)
    ensures var e := EffectOf(Decide(commands, name, message).command, flags, message, login, display);
      && (e.PlayAudio? ==> e.message == message.text)
      && (e.Pulse? ==> e.message == message.text)
      && (e.SetAgenda? ==> e.agenda == message.text)
      && (e.SetCategory? ==> e.category == message.text)
      && (e.SetTitle? ==> e.title == message.text)
      && (e.GiveShoutout? ==> e.target == WithoutAt(message.text))
      && (e.AdjustVolume? ==> e.outcome == VolumeOutcomeOf(message.text))
  {
    var c := Decide(commands, name, message).command;
    assert c.message == message.text;
    EffectReadsMessage(c, flags, message, login, display);
  }

  /** Bot::DispatchChatNotification (bot.cpp:760-770): the host of a hosting notice, if the notice names one. */
  function HostNotice(message: string): Option<string> {
    if Text.Contains(message, "is now hosting you.") then Text.First(message, ' ') else None
  }

  /**
   * A notice is handled exactly when it says "is now hosting you." and does not
   * start with a space; the host is then the notice's first word.
   */
  lemma HostNoticeMeaning(message: string)
    ensures HostNotice(message).Some? <==>
            Text.Contains(message, "is now hosting you.") && message != [] && message[0] != ' '
    ensures HostNotice(message).Some? ==>
              var host := HostNotice(message).value;
              host != [] && ' ' !in host && host <= message && (|host| == |message| || message[|host|] == ' ')
  {
    if HostNotice(message).Some? {
      Text.FirstMeaning(message, ' ');
    }
  }

  /** Division as std::chrono::duration_cast does it: the quotient truncated toward zero. */
  function Truncated(a: int, b: nat): (q: int)
    requires b > 0
  {
    if a >= 0 then a / b else -((-a) / b)
  }

  /** A truncated quotient leaves a remainder smaller than the divisor, with the dividend's sign. */
  lemma TruncatedMeaning(a: int, b: nat)
    requires b > 0
    ensures a >= 0 ==> 0 <= a - Truncated(a, b) * b < b
    ensures a < 0 ==> -(b as int) < a - Truncated(a, b) * b <= 0
  {
  }

  const MS_PER_SECOND: nat := 1000
  const MS_PER_MINUTE: nat := 60 * MS_PER_SECOND
  const MS_PER_HOUR: nat := 60 * MS_PER_MINUTE

  /**
   * Bot::DispatchUptime's split of a stream's age in milliseconds (bot.cpp:886-891):
   * for the total time the uptime history, in minutes, is added first.
   */
  function UptimeParts(duration: int, total: bool, historyMinutes: nat): (int, int, int) {
    var d := if total then duration + historyMinutes * MS_PER_MINUTE else duration;
    var hours := Truncated(d, MS_PER_HOUR);
    var minutes := Truncated(d - hours * MS_PER_HOUR, MS_PER_MINUTE);
    var seconds := Truncated(d - hours * MS_PER_HOUR - minutes * MS_PER_MINUTE, MS_PER_SECOND);
    (hours, minutes, seconds)
  }

  /**
   * The hours, minutes and seconds put the duration back together to within a
   * second; minutes and seconds stay below sixty in size and all three share the
   * duration's sign.
   */
  lemma UptimePartsMeaning(duration: int, total: bool, historyMinutes: nat)
    ensures var d := if total then duration + historyMinutes * MS_PER_MINUTE else duration;
      var (h, m, s) := UptimeParts(duration, total, historyMinutes);
      var rest := d - (h * MS_PER_HOUR + m * MS_PER_MINUTE + s * MS_PER_SECOND);
      && -60 < m < 60 && -60 < s < 60
      && (d >= 0 ==> h >= 0 && m >= 0 && s >= 0 && 0 <= rest < MS_PER_SECOND)
      && (d < 0 ==> h <= 0 && m <= 0 && s <= 0 && -(MS_PER_SECOND as int) < rest <= 0)
  {
    var d := if total then duration + historyMinutes * MS_PER_MINUTE else duration;
    var (h, m, s) := UptimeParts(duration, total, historyMinutes);
    TruncatedMeaning(d, MS_PER_HOUR);
    var r1 := d - h * MS_PER_HOUR;
    TruncatedMeaning(r1, MS_PER_MINUTE);
    var r2 := r1 - m * MS_PER_MINUTE;
    TruncatedMeaning(r2, MS_PER_SECOND);
  }

  /** `date + " " + line` for every line, in order. */
  function Stamped(date: string, lines: seq<string>): (r: seq<string>)
    ensures |r| == |lines|
    ensures forall k :: 0 <= k < |r| ==> r[k] == date + " " + lines[k]
  {
    seq(|lines|, k requires 0 <= k < |lines| => date + " " + lines[k])
  }

  /**
   * Bot::DispatchPanic's text (bot.cpp:852-854): the date on a line of its own,
   * then the panic text with every line after the first prefixed by the date.
   */
  function PanicText(date: string, text: string): string {
    date + "\n" + Text.Join(Text.Split(text, '\n'), "\n" + date + " ")
  }

  /** Splitting after a first piece free of the delimiter yields that piece, then the rest's parts. */
  lemma SplitAfter(head: string, d: char, rest: string)
    requires d !in head
    ensures Text.Split(head + [d] + rest, d) == [head] + Text.Split(rest, d)
  {
    var s := head + [d] + rest;
    assert s[..|head|] == head && s[|head| + 1..] == rest;
    Text.IndexOfAt(s, d, |head|);
  }

  /** A string without the delimiter splits into itself alone. */
  lemma SplitWhole(s: string, d: char)
    requires d !in s
    ensures Text.Split(s, d) == [s]
  {
  }

  /** Joining lines with a newline and the date between them gives back the lines, stamped after the first. */
  lemma {:induction false} StampedLines(prefix: string, date: string, lines: seq<string>)
    requires '\n' !in prefix && '\n' !in date && |lines| >= 1
    requires forall k :: 0 <= k < |lines| ==> '\n' !in lines[k]
    ensures Text.Split(prefix + Text.Join(lines, "\n" + date + " "), '\n')
            == [prefix + lines[0]] + Stamped(date, lines[1..])
    decreases |lines|
  {
    var sep := "\n" + date + " ";
    if |lines| == 1 {
      assert Text.Join(lines, sep) == lines[0];
      assert '\n' !in prefix + lines[0];
      SplitWhole(prefix + lines[0], '\n');
      assert Stamped(date, lines[1..]) == [];
    } else {
      var tail := lines[1..];
      Text.JoinCons(lines[0], tail, sep);
      assert lines == [lines[0]] + tail;
      var after := date + " ";
      assert prefix + Text.Join(lines, sep) == (prefix + lines[0]) + ['\n'] + (after + Text.Join(tail, sep));
      assert '\n' !in prefix + lines[0];
      SplitAfter(prefix + lines[0], '\n', after + Text.Join(tail, sep));
      assert '\n' !in after;
      StampedLines(after, date, tail);
      assert Stamped(date, tail) == [after + tail[0]] + Stamped(date, tail[1..]);
    }
  }

  /**
   * The panic text's lines are the date, the first line of the text, and every
   * further line of the text prefixed by the date and a space.
   */
  lemma PanicLines(date: string, text: string)
    requires '\n' !in date
    ensures var lines := Text.Split(text, '\n');
      Text.Split(PanicText(date, text), '\n') == [date, lines[0]] + Stamped(date, lines[1..])
  {
    var lines := Text.Split(text, '\n');
    var body := Text.Join(lines, "\n" + date + " ");
    assert PanicText(date, text) == date + ['\n'] + body;
    SplitAfter(date, '\n', body);
    Text.SplitFree(text, '\n');
    StampedBody(date, lines);
  }

  /** The lines joined with the date between them split back into the lines, stamped after the first. */
  lemma StampedBody(date: string, lines: seq<string>)
    requires '\n' !in date && |lines| >= 1
    requires forall k :: 0 <= k < |lines| ==> '\n' !in lines[k]
    ensures Text.Split(Text.Join(lines, "\n" + date + " "), '\n') == [lines[0]] + Stamped(date, lines[1..])
  {
    var none: string := [];
    StampedLines(none, date, lines);
    assert none + Text.Join(lines, "\n" + date + " ") == Text.Join(lines, "\n" + date + " ");
    assert none + lines[0] == lines[0];
  }

  /** One row of the command list: a name, the names of its aliases, and its description. */
  datatype Listing = Listing(name: string, aliases: set<string>, description: string)

  /** The names of the aliases made from the command stored under `name` (`Command::Children()`). */
  function ChildrenOf(commands: map<string, Command>, name: string): set<string> {
    set k | k in commands && commands[k].parent == Some(name) :: commands[k].name
  }

  /** Whether the command list shows a command: neither an alias nor protected (bot.cpp:799). */
  predicate Listed(c: Command) {
    !c.IsAlias() && !c.protect
  }

  /** The command list for the table visited in `order` (bot.cpp:793-806). */
  function Listings(commands: map<string, Command>, order: seq<string>): seq<Listing>
    requires forall i :: 0 <= i < |order| ==> order[i] in commands
  {
    if order == [] then []
    else
      var last := order[|order| - 1];
      var c := commands[last];
      Listings(commands, order[..|order| - 1])
        + (if Listed(c) then [Listing(c.name, ChildrenOf(commands, last), c.description)] else [])
  }

  /**
   * A command shows up in the list exactly when it is visited and is neither an
   * alias nor protected, and it then shows its own description and its aliases.
   */
  lemma {:induction false} ListingsMeaning(commands: map<string, Command>, order: seq<string>)
    requires forall i :: 0 <= i < |order| ==> order[i] in commands
    ensures forall l :: l in Listings(commands, order) ==>
              exists k :: k in order && Listed(commands[k]) && l == Listing(commands[k].name, ChildrenOf(commands, k), commands[k].description)
    ensures forall k :: k in order && Listed(commands[k]) ==>
              Listing(commands[k].name, ChildrenOf(commands, k), commands[k].description) in Listings(commands, order)
    ensures |Listings(commands, order)| <= |order|
  {
    if order != [] {
      var front := order[..|order| - 1];
      ListingsMeaning(commands, front);
      forall k | k in order
        ensures k in front || k == order[|order| - 1]
      {
        var i :| 0 <= i < |order| && order[i] == k;
        if i < |order| - 1 {
          assert front[i] == k;
        }
      }
    }
  }

  /** `order` visits every name of the table exactly once, as iterating over the table does. */
  predicate Visits(commands: map<string, Command>, order: seq<string>) {
    && (forall i :: 0 <= i < |order| ==> order[i] in commands)
    && (forall i, j :: 0 <= i < j < |order| ==> order[i] != order[j])
    && (forall k :: k in commands ==> k in order)
  }

  /** The names among those visited whose commands the list shows. */
  function ListedNames(commands: map<string, Command>, order: seq<string>): set<string>
    requires forall i :: 0 <= i < |order| ==> order[i] in commands
  {
    set k | k in order && Listed(commands[k])
  }

  /** Visiting each name at most once, the list has one row per shown command. */
  lemma {:induction false} ListingsCount(commands: map<string, Command>, order: seq<string>)
    requires forall i :: 0 <= i < |order| ==> order[i] in commands
    requires forall i, j :: 0 <= i < j < |order| ==> order[i] != order[j]
    ensures |Listings(commands, order)| == |ListedNames(commands, order)|
    decreases |order|
  {
    if order != [] {
      var k := |order| - 1;
      var front := order[..k];
      ListingsCount(commands, front);
      var last := order[k];
      assert last !in front by {
        forall i | 0 <= i < k ensures front[i] != last {
          assert front[i] == order[i];
        }
      }
      assert ListedNames(commands, order) ==
             ListedNames(commands, front) + (if Listed(commands[last]) then {last} else {}) by {
        assert order == front + [last];
      }
    }
  }

  /**
   * Over a visit of the whole table, every command that is neither an alias
   * nor protected shows up once, with its description and its aliases, and
   * nothing else shows up.
   */
  lemma ListingsCover(commands: map<string, Command>, order: seq<string>)
    requires Visits(commands, order)
    ensures forall k :: k in commands && Listed(commands[k]) ==>
              Listing(commands[k].name, ChildrenOf(commands, k), commands[k].description) in Listings(commands, order)
    ensures forall l :: l in Listings(commands, order) ==>
              exists k :: k in commands && Listed(commands[k]) && l == Listing(commands[k].name, ChildrenOf(commands, k), commands[k].description)
    ensures |Listings(commands, order)| == |set k | k in commands && Listed(commands[k])|
  {
    ListingsMeaning(commands, order);
    ListingsCount(commands, order);
    assert ListedNames(commands, order) == set k | k in commands && Listed(commands[k]);
  }

  /** Bot::DispatchCommandList: the rows of the command list, in the order the table is visited. */
  method CommandList(commands: map<string, Command>, order: seq<string>) returns (rows: seq<Listing>)
    requires Visits(commands, order)
    ensures rows == Listings(commands, order)
    ensures forall k :: k in commands && Listed(commands[k]) ==>
              Listing(commands[k].name, ChildrenOf(commands, k), commands[k].description) in rows
    ensures |rows| == |set k | k in commands && Listed(commands[k])|
  {
    ListingsCover(commands, order);
    rows := [];
    for i := 0 to |order|
      invariant rows == Listings(commands, order[..i])
    {
      var c := commands[order[i]];
      assert order[..i + 1][..i] == order[..i];
      if Listed(c) {
        rows := rows + [Listing(c.name, ChildrenOf(commands, order[i]), c.description)];
      }
    }
    assert order[..|order|] == order;
  }
}
