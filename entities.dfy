/**
 * The value types of entities.h: the chat command record and the chat emote
 * occurrence ordering. Both are immutable once built; every "constructor" is a
 * function returning a fresh value.
 */
module Entities {
  import opened Wrappers

  /**
   * CommandType. PULSAR is used throughout the bot (and listed in its type
   * table) although the enumeration in entities.h stops at AUDIO.
   */
  datatype CommandType = Blank | Native | Video | Audio | Pulsar

  /**
   * Command: the fields of entities.h plus `parent`, the name of the command an
   * alias was made from (`Command::Parent()` in the bot); `None` for a command
   * that is not an alias.
   */
  datatype Command = Command(
    name: string,
    description: string,
    kind: CommandType,
    random: bool,
    protect: bool,
    path: string,
    message: string,
    parent: Option<string>)
  {
    /** An alias, as opposed to a full command (`Command::Parent()` is set). */
    predicate IsAlias() {
      parent.Some?
    }
  }

  /** `Command()`: a blank command with every text empty and every flag clear. */
  function DefaultCommand(): (c: Command)
    ensures c.kind == Blank && c.parent == None
    ensures c.name == [] && c.description == [] && c.path == [] && c.message == []
    ensures !c.random && !c.protect
  {
    Command([], [], Blank, false, false, [], [], None)
  }

  /**
   * `Command(name, description, type, random, path, message, protect)`: every
   * field as given; the result is not an alias.
   */
  function FullCommand(name: string, description: string, kind: CommandType, random: bool,
                       path: string, message: string, protect: bool): (c: Command)
    ensures c.name == name && c.description == description && c.kind == kind
    ensures c.random == random && c.path == path && c.message == message && c.protect == protect
    ensures !c.IsAlias()
  {
    Command(name, description, kind, random, protect, path, message, None)
  }

  /**
   * `Command(name, description, type, protect)`: a command without a media path
   * or message, never random.
   */
  function NewCommand(name: string, description: string, kind: CommandType, protect: bool): (c: Command)
    ensures c.name == name && c.description == description && c.kind == kind && c.protect == protect
    ensures !c.random && c.path == [] && c.message == [] && !c.IsAlias()
  {
    FullCommand(name, description, kind, false, [], [], protect)
  }

  /** `Command(command, message)`: the same command carrying another message. */
  function WithMessage(command: Command, message: string): (c: Command)
    ensures c.message == message
    ensures c.name == command.name && c.description == command.description && c.kind == command.kind
    ensures c.random == command.random && c.path == command.path && c.protect == command.protect
    ensures c.parent == command.parent
  {
    command.(message := message)
  }

  /**
   * `Command(alias, &parent)`: an alias answering to another name but behaving
   * like the command it was made from, which becomes its parent.
   */
  function AliasOf(alias: string, parentName: string, of: Command): (c: Command)
    ensures c.name == alias && c.parent == Some(parentName) && c.IsAlias()
    ensures c.description == of.description && c.kind == of.kind && c.random == of.random
    ensures c.path == of.path && c.message == of.message && c.protect == of.protect
  {
    of.(name := alias, parent := Some(parentName))
  }

  /** Replacing the message twice keeps only the second. */
  lemma WithMessageTwice(command: Command, first: string, second: string)
    ensures WithMessage(WithMessage(command, first), second) == WithMessage(command, second)
  {
  }

  /** Putting back a command's own message gives the same command. */
  lemma WithOwnMessage(command: Command)
    ensures WithMessage(command, command.message) == command
  {
  }

  /** Media::Emote: one occurrence of an emote in a chat line (unsigned start and end). */
  datatype MediaEmote = MediaEmote(name: string, id: string, path: string, start: nat, end: nat)

  /** `Media::Emote::operator<`: compares the start positions and nothing else. */
  predicate EmoteLess(a: MediaEmote, b: MediaEmote) {
    a.start < b.start
  }

  /** Neither of two emotes is less than the other exactly when their starts agree. */
  lemma EmoteLessEquivalent(a: MediaEmote, b: MediaEmote)
    ensures !EmoteLess(a, b) && !EmoteLess(b, a) <==> a.start == b.start
  {
  }

  /** The ordering is a strict weak ordering, as std::sort demands of it. */
  lemma EmoteLessStrictWeak(a: MediaEmote, b: MediaEmote, c: MediaEmote)
    ensures !EmoteLess(a, a)
    ensures EmoteLess(a, b) ==> !EmoteLess(b, a)
    ensures EmoteLess(a, b) && EmoteLess(b, c) ==> EmoteLess(a, c)
    ensures (!EmoteLess(a, b) && !EmoteLess(b, a)) && (!EmoteLess(b, c) && !EmoteLess(c, b))
            ==> !EmoteLess(a, c) && !EmoteLess(c, a)
  {
  }
}
