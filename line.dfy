/**
 * The reading half of Bot::ParseChatMessage (bot.cpp:501-601): the message
 * record built from the tag prefix, the login cut from the hostmask, and the
 * `!command` at the head of the text. What the bot then does with the line
 * depends on its tables and lives with the Bot class.
 */
module Line {
  import opened Wrappers
  import Text
  import Chat

  /**
   * The message record as the tags leave it (bot.cpp:507-574): sender and
   * color from their tags, the badge icons and the broadcaster and moderator
   * flags from the badges tag, and the emote occurrences sorted by start. A
   * bound that is not a number throws out of the parser: that is the error.
   */
  function Header(prefix: string, iconPaths: map<(string, string), string>): Result<Chat.Message> {
    var tags := Chat.TagsOf(Text.Pieces(prefix, ';'));
    var badges := if Chat.BADGES in tags then Chat.BadgesOf(Text.Pieces(tags[Chat.BADGES], ','), iconPaths)
                  else Chat.BadgeSet(map[], []);
    var emotes := if Chat.EMOTES in tags then Chat.EmotesOf(Text.Pieces(tags[Chat.EMOTES], '/')) else Ok([]);
    if emotes.Err? then Err(emotes.error)
    else Ok(Chat.Message(
      Chat.TagText(tags, Chat.DISPLAY_NAME), [], Chat.TagText(tags, Chat.COLOR), badges.icons,
      Chat.SortByStart(emotes.value), false,
      Chat.Holds(badges.versions, Chat.BROADCASTER), Chat.Holds(badges.versions, Chat.MODERATOR)))
  }

  /**
   * The header's fields come from their tags: the flags are set exactly by
   * version "1" of their badge, and the emotes are those of every span of
   * the emotes tag, put in start order.
   */
  lemma HeaderMeaning(prefix: string, iconPaths: map<(string, string), string>)
    requires Header(prefix, iconPaths).Ok?
    ensures var tags := Chat.TagsOf(Text.Pieces(prefix, ';'));
      var m := Header(prefix, iconPaths).value;
      && (Chat.DISPLAY_NAME in tags ==> m.sender == tags[Chat.DISPLAY_NAME])
      && (Chat.DISPLAY_NAME !in tags ==> m.sender == [])
      && (Chat.COLOR in tags ==> m.color == tags[Chat.COLOR])
      && (Chat.COLOR !in tags ==> m.color == [])
      && (m.broadcaster <==>
            (Chat.BADGES in tags && Chat.Holds(Chat.BadgesOf(Text.Pieces(tags[Chat.BADGES], ','), iconPaths).versions, Chat.BROADCASTER)))
      && (m.moderator <==>
            (Chat.BADGES in tags && Chat.Holds(Chat.BadgesOf(Text.Pieces(tags[Chat.BADGES], ','), iconPaths).versions, Chat.MODERATOR)))
      && Chat.SortedByStart(m.emotes)
      && (Chat.EMOTES in tags ==>
            multiset(m.emotes) == multiset(Chat.TagEmotes(Text.Pieces(tags[Chat.EMOTES], '/'))))
      && (Chat.EMOTES !in tags ==> m.emotes == [])
      && m.text == [] && !m.action
  {
    var tags := Chat.TagsOf(Text.Pieces(prefix, ';'));
    if Chat.EMOTES in tags {
      Chat.EmotesOfCover(Text.Pieces(tags[Chat.EMOTES], '/'));
    }
  }

  /** A header fails exactly when its emotes tag holds an entry with a malformed occurrence. */
  lemma HeaderFails(prefix: string, iconPaths: map<(string, string), string>)
    ensures var tags := Chat.TagsOf(Text.Pieces(prefix, ';'));
      Header(prefix, iconPaths).Err? <==>
        Chat.EMOTES in tags && !Chat.AllWellFormed(Text.Pieces(tags[Chat.EMOTES], '/'))
  {
    var tags := Chat.TagsOf(Text.Pieces(prefix, ';'));
    if Chat.EMOTES in tags {
      Chat.EmotesOfCover(Text.Pieces(tags[Chat.EMOTES], '/'));
    }
  }

  /** The header built step by step, with the tag, badge and emote loops of the parser. */
  method ReadHeader(prefix: string, iconPaths: map<(string, string), string>) returns (r: Result<Chat.Message>)
    ensures r == Header(prefix, iconPaths)
  {
    var tags := Chat.ParseTags(prefix);
    var m := Chat.EmptyMessage();
    if Chat.DISPLAY_NAME in tags {
      m := m.(sender := tags[Chat.DISPLAY_NAME]);
    }
    if Chat.COLOR in tags {
      m := m.(color := tags[Chat.COLOR]);
    }
    if Chat.BADGES in tags {
      var badges := Chat.ParseBadges(tags[Chat.BADGES], iconPaths);
      m := m.(badges := badges.icons);
      if Chat.Holds(badges.versions, Chat.BROADCASTER) {
        m := m.(broadcaster := true);
      }
      if Chat.Holds(badges.versions, Chat.MODERATOR) {
        m := m.(moderator := true);
      }
    }
    if Chat.EMOTES in tags {
      var emotes := Chat.ParseEmotes(tags[Chat.EMOTES]);
      if emotes.Err? {
        return Err(emotes.error);
      }
      m := m.(emotes := Chat.SortByStart(emotes.value));
    }
    r := Ok(m);
  }

  /** The login of the hostmask `nick!user@host ...` (bot.cpp:580-584): missing when either cut finds nothing. */
  function LoginOf(source: string): Option<string> {
    var hostmask := Text.Take(source, ' ').0;
    if hostmask.None? then None else Text.Take(hostmask.value, '!').0
  }

  /**
   * There is a login exactly when the source neither is empty nor starts with a
   * space; it is then the start of the source up to the first `!` or space.
   */
  lemma LoginMeaning(source: string)
    ensures LoginOf(source).None? <==> source == [] || source[0] == ' '
    ensures LoginOf(source).Some? ==>
              var login := LoginOf(source).value;
              && login <= source && ' ' !in login && '!' !in login
              && (|login| == |source| || source[|login|] == ' ' || source[|login|] == '!')
  {
    if source != [] {
      Text.TakeMeaning(source, ' ');
      var hostmask := Text.Take(source, ' ').0.value;
      assert hostmask <= source;
      if hostmask != [] {
        Text.TakeMeaning(hostmask, '!');
        assert hostmask[0] == source[0];
      } else {
        assert source[0] == ' ';
      }
    }
  }

  /**
   * A `!command` at the head of the text (bot.cpp:593-599): the first
   * space-delimited word without its `!`, and the trimmed rest of the text.
   */
  function CommandOf(message: string): Option<(string, string)> {
    var cut := Text.Take(message, ' ');
    var first := cut.0;
    if first.Some? && |first.value| > 0 && first.value[0] == '!' then Some((first.value[1..], Text.Trimmed(cut.1)))
    else None
  }

  /**
   * A line is a command exactly when it starts with `!`; the name is what
   * follows up to the first space, and the argument the trimmed remainder.
   */
  lemma CommandMeaning(message: string)
    ensures CommandOf(message).Some? <==> message != [] && message[0] == '!'
    ensures CommandOf(message).Some? ==> ' ' !in CommandOf(message).value.0
    ensures CommandOf(message).Some? && ' ' in message ==>
              exists rest :: message == "!" + CommandOf(message).value.0 + " " + rest
                             && CommandOf(message).value.1 == Text.Trimmed(rest)
    ensures CommandOf(message).Some? && ' ' !in message ==>
              message == "!" + CommandOf(message).value.0 && CommandOf(message).value.1 == []
  {
    if message != [] {
      Text.TakeMeaning(message, ' ');
      var w := Text.Take(message, ' ').0.value;
      var rest := Text.Take(message, ' ').1;
      if w != [] {
        assert w[0] == message[0] by {
          if ' ' in message {
            assert message == w + [' '] + rest;
          }
        }
      }
      if CommandOf(message).Some? {
        var name := w[1..];
        assert w == "!" + name;
        if ' ' in message {
          assert message == "!" + name + " " + rest;
        } else {
          assert Text.Trimmed([]) == [];
        }
      }
    }
  }
}
