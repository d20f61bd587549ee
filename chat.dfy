/**
 * The text side of Bot::ParseChatMessage (bot.cpp): the IRCv3 message tags of
 * one chat line, its badges and emote occurrences, the `/me` action wrapper and
 * the naming of emotes. Each loop of the source is a method proved equal to a
 * specification function that folds over the pieces StringView::Take cuts;
 * the properties of the chat line are lemmas about those functions.
 */
module Chat {
  import opened Wrappers
  import Text
  import Convert

  /** Chat::Emote: one occurrence, its offsets into the text, and the name and image path filled in later. */
  datatype Emote = Emote(id: string, start: nat, end: nat, name: string, path: string)

  /** Chat::Message as the parser fills it in. */
  datatype Message = Message(
    sender: string,
    text: string,
    color: string,
    badges: seq<string>,
    emotes: seq<Emote>,
    action: bool,
    broadcaster: bool,
    moderator: bool)
  {
    /** Chat::Message::Privileged: the broadcaster and the moderators may run protected commands. */
    predicate Privileged() {
      broadcaster || moderator
    }
  }

  /** A default-constructed Chat::Message: all text empty, no badges or emotes, no flag set. */
  function EmptyMessage(): (m: Message)
    ensures m.sender == [] && m.text == [] && m.color == [] && m.badges == [] && m.emotes == []
    ensures !m.action && !m.broadcaster && !m.moderator
  {
    Message([], [], [], [], [], false, false, false)
  }

  const DISPLAY_NAME: string := "display-name"
  const COLOR: string := "color"
  const BADGES: string := "badges"
  const EMOTES: string := "emotes"
  const BROADCASTER: string := "broadcaster"
  const MODERATOR: string := "moderator"
  const ACTION: string := "\U{1}ACTION"

  // ---------------------------------------------------------------- key/value pairs

  /**
   * One `key<d>value` pair as the parser reads it: Take cuts the key off at
   * the first `d` and Last keeps what follows the last `d`.
   */
  function KeyValue(pair: string, d: char): Option<(string, string)>
  {
    var key := Text.Take(pair, d);
    if key.0.None? then None
    else
      match Text.Last(key.1, d)
      case None => None
      case Some(v) => Some((key.0.value, v))
  }

  /**
   * There is a pair exactly when a `d` is present and something follows the
   * last one; its key is all before the first `d` and its value all after the
   * last `d`.
   */
  lemma KeyValueMeaning(pair: string, d: char)
    ensures KeyValue(pair, d).Some? <==> d in pair && pair[|pair| - 1] != d
    ensures KeyValue(pair, d).Some? ==>
      var (k, v) := KeyValue(pair, d).value;
      && d !in k && k + [d] <= pair
      && v != [] && d !in v && |v| < |pair|
      && v == pair[|pair| - |v|..] && pair[|pair| - |v| - 1] == d
  {
    KeyValueHasDelimiter(pair, d);
    KeyValueNotTrailing(pair, d);
    if d in pair && pair[|pair| - 1] != d {
      KeyValueWellFormed(pair, d);
    }
    if KeyValue(pair, d).Some? {
      KeyValueKey(pair, d);
      KeyValueValue(pair, d);
    }
  }

  lemma KeyValueHasDelimiter(pair: string, d: char)
    ensures KeyValue(pair, d).Some? ==> d in pair
  {
    if pair != [] {
      Text.TakeMeaning(pair, d);
    }
  }

  lemma KeyValueNotTrailing(pair: string, d: char)
    ensures KeyValue(pair, d).Some? ==> pair[|pair| - 1] != d
  {
    if KeyValue(pair, d).Some? {
      Text.TakeMeaning(pair, d);
      var rest := Text.Take(pair, d).1;
      assert pair[|pair| - 1] == rest[|rest| - 1];
    }
  }

  lemma KeyValueWellFormed(pair: string, d: char)
    requires d in pair && pair[|pair| - 1] != d
    ensures KeyValue(pair, d).Some?
  {
    Text.TakeMeaning(pair, d);
    var rest := Text.Take(pair, d).1;
    assert rest != [] && pair[|pair| - 1] == rest[|rest| - 1];
  }

  lemma KeyValueKey(pair: string, d: char)
    requires KeyValue(pair, d).Some?
    ensures var k := KeyValue(pair, d).value.0; d !in k && k + [d] <= pair
  {
    KeyValueHasDelimiter(pair, d);
    Text.TakeMeaning(pair, d);
  }

  lemma KeyValueValue(pair: string, d: char)
    requires KeyValue(pair, d).Some?
    ensures var v := KeyValue(pair, d).value.1;
      && v != [] && d !in v && |v| < |pair|
      && v == pair[|pair| - |v|..] && pair[|pair| - |v| - 1] == d
  {
    KeyValueHasDelimiter(pair, d);
    Text.TakeThenLast(pair, d, KeyValue(pair, d).value.1);
  }

  /** `pair` is a well-formed pair whose key is `k`. */
  predicate HasKey(pair: string, d: char, k: string) {
    KeyValue(pair, d).Some? && KeyValue(pair, d).value.0 == k
  }

  // ---------------------------------------------------------------- tags

  /** Reading one pair into the tag table: a well-formed pair sets its key, replacing an earlier value. */
  function TagStep(tags: map<string, string>, pair: string): map<string, string>
  {
    var kv := KeyValue(pair, '=');
    if kv.Some? then tags[kv.value.0 := kv.value.1] else tags
  }

  /** The tag table after reading `pairs` in order. */
  function TagsOf(pairs: seq<string>): map<string, string>
  {
    if pairs == [] then map[] else TagStep(TagsOf(pairs[..|pairs| - 1]), pairs[|pairs| - 1])
  }

  /** Reading one more pair is one more step. */
  lemma TagsOfSnoc(done: seq<string>, pair: string)
    ensures TagsOf(done + [pair]) == TagStep(TagsOf(done), pair)
  {
    assert (done + [pair])[..|done|] == done;
  }

  /** The position of the last pair with key `k`, or -1 when there is none. */
  function LastWithKey(pairs: seq<string>, d: char, k: string): (i: int)
    ensures -1 <= i < |pairs|
    ensures i >= 0 ==> HasKey(pairs[i], d, k)
    ensures forall j :: i < j < |pairs| ==> !HasKey(pairs[j], d, k)
  {
    if pairs == [] then -1
    else if HasKey(pairs[|pairs| - 1], d, k) then |pairs| - 1
    else
      var front := pairs[..|pairs| - 1];
      assert forall j :: 0 <= j < |front| ==> pairs[j] == front[j];
      LastWithKey(front, d, k)
  }

  /**
   * A key is in the tag table exactly when some pair carries it with a value,
   * and its value is the one of the last such pair.
   */
  lemma {:induction false} TagsLastWins(pairs: seq<string>, k: string)
    ensures k in TagsOf(pairs) <==> LastWithKey(pairs, '=', k) >= 0
    ensures k in TagsOf(pairs) ==> TagsOf(pairs)[k] == KeyValue(pairs[LastWithKey(pairs, '=', k)], '=').value.1
  {
    if pairs != [] {
      var front, last := pairs[..|pairs| - 1], pairs[|pairs| - 1];
      TagsLastWins(front, k);
      if !HasKey(last, '=', k) {
        var i := LastWithKey(front, '=', k);
        assert LastWithKey(pairs, '=', k) == i;
        assert i >= 0 ==> pairs[i] == front[i];
      }
    }
  }

  /** The tag loop of ParseChatMessage: `;`-separated pairs cut from the tag prefix. */
  method ParseTags(prefix: string) returns (tags: map<string, string>)
    ensures tags == TagsOf(Text.Pieces(prefix, ';'))
  {
    var window := prefix;
    ghost var done: seq<string> := [];
    tags := map[];
    while window != []
      invariant Text.Pieces(prefix, ';') == done + Text.Pieces(window, ';')
      invariant tags == TagsOf(done)
      decreases |window|
    {
      var cut := Text.Take(window, ';');
      var pair := cut.0.value;
      Text.PiecesAdvance(prefix, done, window, ';');
      TagsOfSnoc(done, pair);
      window := cut.1;
      done := done + [pair];
      tags := TagStep(tags, pair);
    }
    assert done + Text.Pieces(window, ';') == done;
  }

  /** A tag's text, or nothing when the tag is absent. */
  function TagText(tags: map<string, string>, key: string): (r: string)
    ensures key in tags ==> r == tags[key]
    ensures key !in tags ==> r == []
  {
    if key in tags then tags[key] else []
  }

  // ---------------------------------------------------------------- badges

  /** The badge versions read so far and the icon paths collected for them. */
  datatype BadgeSet = BadgeSet(versions: map<string, string>, icons: seq<string>)

  /**
   * Reading one `name/version` pair: the first version of a badge is kept, and
   * a badge with a version whose icon is known adds its icon path.
   */
  function BadgeStep(b: BadgeSet, pair: string, iconPaths: map<(string, string), string>): BadgeSet
  {
    var kv := KeyValue(pair, '/');
    if kv.None? then b
    else
      var (name, version) := kv.value;
      BadgeSet(
        if name in b.versions then b.versions else b.versions[name := version],
        b.icons + (if (name, version) in iconPaths then [iconPaths[(name, version)]] else []))
  }

  /** The badge table after reading `pairs` in order. */
  function BadgesOf(pairs: seq<string>, iconPaths: map<(string, string), string>): BadgeSet
  {
    if pairs == [] then BadgeSet(map[], [])
    else BadgeStep(BadgesOf(pairs[..|pairs| - 1], iconPaths), pairs[|pairs| - 1], iconPaths)
  }

  lemma BadgesOfSnoc(done: seq<string>, pair: string, iconPaths: map<(string, string), string>)
    ensures BadgesOf(done + [pair], iconPaths) == BadgeStep(BadgesOf(done, iconPaths), pair, iconPaths)
  {
    assert (done + [pair])[..|done|] == done;
  }

  /** The position of the first pair with key `k`, or |pairs| when there is none. */
  function FirstWithKey(pairs: seq<string>, d: char, k: string): (i: nat)
    ensures i <= |pairs|
    ensures i < |pairs| ==> HasKey(pairs[i], d, k)
    ensures forall j :: 0 <= j < i ==> !HasKey(pairs[j], d, k)
  {
    if pairs == [] then 0
    else
      var front := pairs[..|pairs| - 1];
      var i := FirstWithKey(front, d, k);
      assert forall j :: 0 <= j < i ==> pairs[j] == front[j];
      if i < |front| then assert pairs[i] == front[i]; i
      else if HasKey(pairs[|front|], d, k) then |front|
      else |pairs|
  }

  /** One more pair leaves the first position with key `k` where it was, or finds it in the new pair. */
  lemma FirstWithKeySnoc(pairs: seq<string>, d: char, k: string)
    requires pairs != []
    ensures var front := pairs[..|pairs| - 1];
      FirstWithKey(pairs, d, k) ==
        if FirstWithKey(front, d, k) < |front| then FirstWithKey(front, d, k)
        else if HasKey(pairs[|front|], d, k) then |front|
        else |pairs|
  {
  }

  /** One more pair adds its badge only when the badge is new, with the pair's version. */
  lemma BadgeStepVersions(b: BadgeSet, pair: string, iconPaths: map<(string, string), string>, n: string)
    ensures var after := BadgeStep(b, pair, iconPaths).versions;
      && (n in after <==> n in b.versions || HasKey(pair, '/', n))
      && (n in b.versions ==> after[n] == b.versions[n])
      && (n !in b.versions && HasKey(pair, '/', n) ==> after[n] == KeyValue(pair, '/').value.1)
  {
  }

  /**
   * A badge is known exactly when some pair names it with a version, and its
   * version is the one of the first such pair.
   */
  lemma {:induction false} BadgesFirstWins(pairs: seq<string>, iconPaths: map<(string, string), string>, n: string)
    ensures n in BadgesOf(pairs, iconPaths).versions <==> FirstWithKey(pairs, '/', n) < |pairs|
    ensures n in BadgesOf(pairs, iconPaths).versions ==>
      BadgesOf(pairs, iconPaths).versions[n] == KeyValue(pairs[FirstWithKey(pairs, '/', n)], '/').value.1
  {
    if pairs != [] {
      var front, last := pairs[..|pairs| - 1], pairs[|pairs| - 1];
      var b := BadgesOf(front, iconPaths);
      var after := BadgesOf(pairs, iconPaths).versions;
      assert && (n in after <==> n in b.versions || HasKey(last, '/', n))
             && (n in b.versions ==> after[n] == b.versions[n])
             && (n !in b.versions && HasKey(last, '/', n) ==> after[n] == KeyValue(last, '/').value.1) by {
        assert BadgesOf(pairs, iconPaths) == BadgeStep(b, last, iconPaths);
        BadgeStepVersions(b, last, iconPaths, n);
      }
      BadgesFirstWins(front, iconPaths, n);
      FirstWithKeySnoc(pairs, '/', n);
      var i := FirstWithKey(front, '/', n);
      if i < |front| {
        assert FirstWithKey(pairs, '/', n) == i && pairs[i] == front[i];
      } else if HasKey(last, '/', n) {
        assert FirstWithKey(pairs, '/', n) == |front|;
      } else {
        assert FirstWithKey(pairs, '/', n) == |pairs|;
      }
    }
  }

  /** The badge loop of ParseChatMessage over the `,`-separated value of the badges tag. */
  method ParseBadges(value: string, iconPaths: map<(string, string), string>) returns (b: BadgeSet)
    ensures b == BadgesOf(Text.Pieces(value, ','), iconPaths)
  {
    var versions := value;
    ghost var done: seq<string> := [];
    b := BadgeSet(map[], []);
    while versions != []
      invariant Text.Pieces(value, ',') == done + Text.Pieces(versions, ',')
      invariant b == BadgesOf(done, iconPaths)
      decreases |versions|
    {
      var cut := Text.Take(versions, ',');
      var pair := cut.0.value;
      Text.PiecesAdvance(value, done, versions, ',');
      BadgesOfSnoc(done, pair, iconPaths);
      versions := cut.1;
      done := done + [pair];
      b := BadgeStep(b, pair, iconPaths);
    }
    assert done + Text.Pieces(versions, ',') == done;
  }

  /** The broadcaster and moderator flags: set only by version "1" of the badge. */
  predicate Holds(versions: map<string, string>, badge: string) {
    badge in versions && versions[badge] == "1"
  }

  // ---------------------------------------------------------------- emotes

  /** The first and last `-`-separated parts of an occurrence `start-end`. */
  function Bounds(occurrence: string): Option<(string, string)>
  {
    var left, right := Text.First(occurrence, '-'), Text.Last(occurrence, '-');
    if left.Some? && right.Some? then Some((left.value, right.value)) else None
  }

  /**
   * An occurrence has bounds unless it is empty or starts or ends with `-`; the
   * bounds are its leading and trailing runs without `-` (the whole occurrence
   * for both when it has no `-`).
   */
  lemma BoundsMeaning(occurrence: string)
    ensures Bounds(occurrence).None? <==> occurrence == [] || occurrence[0] == '-' || occurrence[|occurrence| - 1] == '-'
    ensures Bounds(occurrence).Some? ==>
      var (left, right) := Bounds(occurrence).value;
      && left != [] && right != [] && '-' !in left && '-' !in right
      && left <= occurrence && right == occurrence[|occurrence| - |right|..]
      && ('-' !in occurrence ==> left == occurrence && right == occurrence)
  {
    if Bounds(occurrence).Some? {
      Text.FirstMeaning(occurrence, '-');
      Text.LastMeaning(occurrence, '-');
    }
  }

  /** What the inner emote loop makes of one `start-end` occurrence. */
  datatype Reading =
    | Skipped                       // no bounds: the occurrence is passed over
    | Malformed(error: string)      // a bound is not an unsigned number: the parser throws
    | Span(start: nat, end: nat)    // an emote from `start` to `end`, both inclusive

  /** The reading of one occurrence: both bounds must be unsigned numbers. */
  function ReadingOf(occurrence: string): Reading
  {
    match Bounds(occurrence)
    case None => Skipped
    case Some((left, right)) =>
      match Convert.PositiveInteger(left)
      case Err(e) => Malformed(e)
      case Ok(start) =>
        match Convert.PositiveInteger(right)
        case Err(e) => Malformed(e)
        case Ok(end) => Span(start, end)
  }

  /**
   * An occurrence is skipped exactly when it is empty or starts or ends with
   * `-`; otherwise it spans from the number before its first `-` to the number
   * after its last `-` (one number for both without a `-`), or it is malformed
   * with the message of StringConvert::PositiveInteger.
   */
  lemma ReadingMeaning(occurrence: string)
    ensures ReadingOf(occurrence).Skipped? <==> occurrence == [] || occurrence[0] == '-' || occurrence[|occurrence| - 1] == '-'
    ensures ReadingOf(occurrence).Malformed? ==> ReadingOf(occurrence).error == "Unable to convert text to positive number"
    ensures ReadingOf(occurrence).Span? ==>
      && Text.First(occurrence, '-').Some? && Text.Last(occurrence, '-').Some?
      && Convert.ParseUnsigned(Text.First(occurrence, '-').value) == Some(ReadingOf(occurrence).start)
      && Convert.ParseUnsigned(Text.Last(occurrence, '-').value) == Some(ReadingOf(occurrence).end)
      && ReadingOf(occurrence).start <= Convert.UINT_MAX && ReadingOf(occurrence).end <= Convert.UINT_MAX
  {
    BoundsMeaning(occurrence);
  }

  /** An occurrence written as two unsigned ints joined by `-` reads back as the span between them. */
  lemma OccurrenceReading(start: nat, end: nat)
    requires start <= Convert.UINT_MAX && end <= Convert.UINT_MAX
    ensures ReadingOf(OccurrenceText(start, end)) == Span(start, end)
  {
    var a, b := Convert.PositiveIntegerText(start), Convert.PositiveIntegerText(end);
    assert forall k :: 0 <= k < |a| ==> Convert.IsDigit(a[k]);
    assert forall k :: 0 <= k < |b| ==> Convert.IsDigit(b[k]);
    Text.FirstLastAround(a, b, '-');
    Convert.PositiveIntegerRoundTrip(start);
    Convert.PositiveIntegerRoundTrip(end);
  }

  /** The readings of a run of occurrences, in order. */
  function Readings(occurrences: seq<string>): (r: seq<Reading>)
    ensures |r| == |occurrences|
  {
    seq(|occurrences|, k requires 0 <= k < |occurrences| => ReadingOf(occurrences[k]))
  }

  /** Reading a run of occurrences piece by piece. */
  lemma ReadingsAppend(a: seq<string>, b: seq<string>)
    ensures Readings(a + b) == Readings(a) + Readings(b)
  {
    var whole, parts := Readings(a + b), Readings(a) + Readings(b);
    forall k | 0 <= k < |whole|
      ensures whole[k] == parts[k]
    {
      if k < |a| {
        assert (a + b)[k] == a[k];
      } else {
        assert (a + b)[k] == b[k - |a|];
      }
    }
  }

  lemma ReadingsSnoc(done: seq<string>, occurrence: string)
    ensures Readings(done + [occurrence]) == Readings(done) + [ReadingOf(occurrence)]
  {
    ReadingsAppend(done, [occurrence]);
  }

  /** One reading applied to the emotes read so far. */
  function Advance(emotes: seq<Emote>, id: string, reading: Reading): Result<seq<Emote>>
  {
    match reading
    case Skipped => Ok(emotes)
    case Malformed(e) => Err(e)
    case Span(start, end) => Ok(emotes + [Emote(id, start, end, [], [])])
  }

  /**
   * The inner emote loop over the readings of the `,`-separated occurrences of
   * one emote id, appending to the emotes read so far; the first malformed
   * occurrence throws.
   */
  function Occurrences(prior: seq<Emote>, id: string, readings: seq<Reading>): Result<seq<Emote>>
  {
    if readings == [] then Ok(prior)
    else
      var r := Occurrences(prior, id, readings[..|readings| - 1]);
      if r.Err? then r else Advance(r.value, id, readings[|readings| - 1])
  }

  lemma OccurrencesSnoc(prior: seq<Emote>, id: string, done: seq<Reading>, reading: Reading)
    ensures var r := Occurrences(prior, id, done);
      Occurrences(prior, id, done + [reading]) == if r.Err? then r else Advance(r.value, id, reading)
  {
    assert (done + [reading])[..|done|] == done;
  }

  /** Once the occurrences have thrown, the remaining ones change nothing. */
  lemma {:induction false} OccurrencesThrow(prior: seq<Emote>, id: string, done: seq<Reading>, rest: seq<Reading>)
    requires Occurrences(prior, id, done).Err?
    ensures Occurrences(prior, id, done + rest) == Occurrences(prior, id, done)
    decreases |rest|
  {
    if rest != [] {
      var front := done + rest[..|rest| - 1];
      assert done + rest == front + [rest[|rest| - 1]];
      OccurrencesThrow(prior, id, done, rest[..|rest| - 1]);
      OccurrencesSnoc(prior, id, front, rest[|rest| - 1]);
    } else {
      assert done + rest == done;
    }
  }

  /** Once the occurrences read so far have thrown, reading more changes nothing. */
  lemma OccurrencesThrowAppend(prior: seq<Emote>, id: string, done: seq<string>, rest: seq<string>)
    requires Occurrences(prior, id, Readings(done)).Err?
    ensures Occurrences(prior, id, Readings(done + rest)) == Occurrences(prior, id, Readings(done))
  {
    ReadingsAppend(done, rest);
    OccurrencesThrow(prior, id, Readings(done), Readings(rest));
  }

  /** The occurrences throw exactly when one of them is malformed, with that one's message. */
  lemma {:induction false} OccurrencesFail(prior: seq<Emote>, id: string, readings: seq<Reading>)
    ensures Occurrences(prior, id, readings).Err? <==> exists j :: 0 <= j < |readings| && readings[j].Malformed?
    ensures Occurrences(prior, id, readings).Err? ==>
      exists j :: 0 <= j < |readings| && readings[j] == Malformed(Occurrences(prior, id, readings).error)
  {
    if readings != [] {
      var front := readings[..|readings| - 1];
      OccurrencesFail(prior, id, front);
      assert forall j :: 0 <= j < |front| ==> readings[j] == front[j];
      if exists j :: 0 <= j < |readings| && readings[j].Malformed? {
        var j :| 0 <= j < |readings| && readings[j].Malformed?;
        assert j == |front| || front[j].Malformed?;
      }
    }
  }

  /**
   * Without a throw the emotes read before are kept in front, and every emote
   * added carries the group's id and the span of one of the occurrences.
   * `OccurrencesCover` states which emotes are added, and in what order.
   */
  lemma {:induction false} OccurrencesSpan(prior: seq<Emote>, id: string, readings: seq<Reading>)
    requires Occurrences(prior, id, readings).Ok?
    ensures var r := Occurrences(prior, id, readings).value;
      && |prior| <= |r| <= |prior| + |readings| && r[..|prior|] == prior
      && forall k :: |prior| <= k < |r| ==>
           exists j :: 0 <= j < |readings| && readings[j] == Span(r[k].start, r[k].end) && r[k] == Emote(id, r[k].start, r[k].end, [], [])
  {
    if readings != [] {
      var front, last := readings[..|readings| - 1], readings[|readings| - 1];
      OccurrencesSpan(prior, id, front);
      var r, r' := Occurrences(prior, id, front).value, Occurrences(prior, id, readings).value;
      assert r'[..|r|] == r;
      forall k | |prior| <= k < |r'|
        ensures exists j :: 0 <= j < |readings| && readings[j] == Span(r'[k].start, r'[k].end) && r'[k] == Emote(id, r'[k].start, r'[k].end, [], [])
      {
        if k < |r| {
          var j :| 0 <= j < |front| && front[j] == Span(r[k].start, r[k].end) && r[k] == Emote(id, r[k].start, r[k].end, [], []);
          assert readings[j] == front[j] && r'[k] == r[k];
        } else {
          assert readings[|front|] == last;
        }
      }
    }
  }

  /** The emotes the occurrences of one emote id describe: one per span, in the order of the spans. */
  function SpanEmotes(id: string, readings: seq<Reading>): seq<Emote>
  {
    if readings == [] then []
    else
      var last := readings[|readings| - 1];
      SpanEmotes(id, readings[..|readings| - 1]) + (if last.Span? then [Emote(id, last.start, last.end, [], [])] else [])
  }

  /** The emotes of two runs of occurrences are those of the first, then those of the second. */
  lemma {:induction false} SpanEmotesAppend(id: string, a: seq<Reading>, b: seq<Reading>)
    ensures SpanEmotes(id, a + b) == SpanEmotes(id, a) + SpanEmotes(id, b)
    decreases |b|
  {
    if b == [] {
      assert a + b == a;
    } else {
      var k := |b| - 1;
      SpanEmotesAppend(id, a, b[..k]);
      assert (a + b)[..|a + b| - 1] == a + b[..k];
    }
  }

  /**
   * Every span gives its emote, every emote comes from a span, and there is
   * one emote per occurrence when every occurrence is a span.
   */
  lemma {:induction false} SpanEmotesMeaning(id: string, readings: seq<Reading>)
    ensures forall j :: 0 <= j < |readings| && readings[j].Span? ==>
              Emote(id, readings[j].start, readings[j].end, [], []) in SpanEmotes(id, readings)
    ensures forall e :: e in SpanEmotes(id, readings) ==>
              exists j :: 0 <= j < |readings| && readings[j] == Span(e.start, e.end) && e == Emote(id, e.start, e.end, [], [])
    ensures |SpanEmotes(id, readings)| <= |readings|
    ensures (forall j :: 0 <= j < |readings| ==> readings[j].Span?) ==> |SpanEmotes(id, readings)| == |readings|
    decreases |readings|
  {
    if readings != [] {
      var k := |readings| - 1;
      var front := readings[..k];
      SpanEmotesMeaning(id, front);
      assert forall j :: 0 <= j < k ==> front[j] == readings[j];
    }
  }

  /**
   * Without a throw, the inner loop adds exactly the emotes of the spans, in
   * the order of the occurrences, after the emotes read before.
   */
  lemma {:induction false} OccurrencesCover(prior: seq<Emote>, id: string, readings: seq<Reading>)
    requires Occurrences(prior, id, readings).Ok?
    ensures Occurrences(prior, id, readings).value == prior + SpanEmotes(id, readings)
    decreases |readings|
  {
    if readings != [] {
      var k := |readings| - 1;
      OccurrencesCover(prior, id, readings[..k]);
    }
  }

  /**
   * Reading one `/`-separated entry `id:occurrences`; an entry without an id
   * is skipped and a throw ends the reading.
   */
  function EntryStep(r: Result<seq<Emote>>, entry: string): Result<seq<Emote>>
  {
    if r.Err? then r
    else
      var id := Text.Take(entry, ':');
      if id.0.None? then r else Occurrences(r.value, id.0.value, Readings(Text.Pieces(id.1, ',')))
  }

  /** The outer emote loop over the entries of the emotes tag, before sorting. */
  function EmotesOf(entries: seq<string>): Result<seq<Emote>>
  {
    if entries == [] then Ok([]) else EntryStep(EmotesOf(entries[..|entries| - 1]), entries[|entries| - 1])
  }

  lemma EmotesOfSnoc(done: seq<string>, entry: string)
    ensures EmotesOf(done + [entry]) == EntryStep(EmotesOf(done), entry)
  {
    assert (done + [entry])[..|done|] == done;
  }

  /** The emotes an entry `id:occurrences` describes; an entry without an id describes none. */
  function EntryEmotes(entry: string): seq<Emote>
  {
    var id := Text.Take(entry, ':');
    if id.0.None? then [] else SpanEmotes(id.0.value, Readings(Text.Pieces(id.1, ',')))
  }

  /** The emotes `f` gives each of the entries, one entry after the other. */
  function Collected(f: string -> seq<Emote>, entries: seq<string>): seq<Emote>
  {
    if entries == [] then [] else Collected(f, entries[..|entries| - 1]) + f(entries[|entries| - 1])
  }

  /** What `f` gives any of the entries is among the emotes collected. */
  lemma {:induction false} CollectedHas(f: string -> seq<Emote>, entries: seq<string>, i: nat, e: Emote)
    requires i < |entries| && e in f(entries[i])
    ensures e in Collected(f, entries)
    decreases |entries|
  {
    var k := |entries| - 1;
    if i < k {
      assert entries[..k][i] == entries[i];
      CollectedHas(f, entries[..k], i, e);
    }
  }

  /** The emotes the entries of the emotes tag describe, entry by entry. */
  function TagEmotes(entries: seq<string>): seq<Emote>
  {
    Collected(EntryEmotes, entries)
  }

  /** None of the occurrences is malformed. */
  predicate NoneMalformed(readings: seq<Reading>) {
    forall j :: 0 <= j < |readings| ==> !readings[j].Malformed?
  }

  /** An entry without an id, or one none of whose occurrences is malformed. */
  predicate EntryWellFormed(entry: string) {
    var id := Text.Take(entry, ':');
    id.0.Some? ==> NoneMalformed(Readings(Text.Pieces(id.1, ',')))
  }

  /** One entry read after the emotes `prior` throws exactly when it is malformed, and otherwise adds its emotes. */
  lemma EntryStepCover(prior: seq<Emote>, entry: string)
    ensures EntryStep(Ok(prior), entry).Ok? <==> EntryWellFormed(entry)
    ensures EntryStep(Ok(prior), entry).Ok? ==> EntryStep(Ok(prior), entry).value == prior + EntryEmotes(entry)
  {
    var id := Text.Take(entry, ':');
    if id.0.Some? {
      var readings := Readings(Text.Pieces(id.1, ','));
      OccurrencesFail(prior, id.0.value, readings);
      if Occurrences(prior, id.0.value, readings).Ok? {
        OccurrencesCover(prior, id.0.value, readings);
      }
    }
  }

  /** Every one of the entries is well formed. */
  predicate AllWellFormed(entries: seq<string>)
    decreases |entries|
  {
    entries != [] ==> AllWellFormed(entries[..|entries| - 1]) && EntryWellFormed(entries[|entries| - 1])
  }

  /**
   * The emote loops throw exactly when some entry is malformed, and otherwise
   * give the emotes of the entries, in the order of the entries.
   */
  lemma {:induction false} EmotesOfCover(entries: seq<string>)
    ensures EmotesOf(entries).Ok? <==> AllWellFormed(entries)
    ensures EmotesOf(entries).Ok? ==> EmotesOf(entries).value == TagEmotes(entries)
    decreases |entries|
  {
    if entries != [] {
      var k := |entries| - 1;
      var front, entry := entries[..k], entries[k];
      EmotesOfCover(front);
      assert EmotesOf(entries) == EntryStep(EmotesOf(front), entry);
      assert TagEmotes(entries) == TagEmotes(front) + EntryEmotes(entry);
      if EmotesOf(front).Ok? {
        EntryStepCover(EmotesOf(front).value, entry);
      }
    }
  }

  /** Every span of an entry with an id gives its emote among the emotes of that entry. */
  lemma EntryEmotesMeaning(entry: string, j: nat)
    requires Text.Take(entry, ':').0.Some?
    requires var readings := Readings(Text.Pieces(Text.Take(entry, ':').1, ','));
             j < |readings| && readings[j].Span?
    ensures var readings := Readings(Text.Pieces(Text.Take(entry, ':').1, ','));
            Emote(Text.Take(entry, ':').0.value, readings[j].start, readings[j].end, [], []) in EntryEmotes(entry)
  {
    var id := Text.Take(entry, ':');
    SpanEmotesMeaning(id.0.value, Readings(Text.Pieces(id.1, ',')));
  }

  /** Every span of every entry with an id gives its emote among the emotes of the tag. */
  lemma TagEmotesMeaning(entries: seq<string>, i: nat, j: nat)
    requires i < |entries| && Text.Take(entries[i], ':').0.Some?
    requires var readings := Readings(Text.Pieces(Text.Take(entries[i], ':').1, ','));
             j < |readings| && readings[j].Span?
    ensures var readings := Readings(Text.Pieces(Text.Take(entries[i], ':').1, ','));
            Emote(Text.Take(entries[i], ':').0.value, readings[j].start, readings[j].end, [], []) in TagEmotes(entries)
  {
    var id := Text.Take(entries[i], ':');
    var readings := Readings(Text.Pieces(id.1, ','));
    EntryEmotesMeaning(entries[i], j);
    CollectedHas(EntryEmotes, entries, i, Emote(id.0.value, readings[j].start, readings[j].end, [], []));
  }

  /** The body of the inner emote loop: the bounds of one occurrence and their numbers. */
  method ReadOccurrence(occurrence: string) returns (reading: Reading)
    ensures reading == ReadingOf(occurrence)
  {
    var left := Text.First(occurrence, '-');
    var right := Text.Last(occurrence, '-');
    if left.None? || right.None? {
      return Skipped;
    }
    var start := Convert.PositiveInteger(left.value);
    if start.Err? {
      return Malformed(start.error);
    }
    var end := Convert.PositiveInteger(right.value);
    if end.Err? {
      return Malformed(end.error);
    }
    reading := Span(start.value, end.value);
  }

  /** The inner emote loop: the `,`-separated occurrences of one emote id. */
  method ReadOccurrences(prior: seq<Emote>, id: string, occurrences: string) returns (r: Result<seq<Emote>>)
    ensures r == Occurrences(prior, id, Readings(Text.Pieces(occurrences, ',')))
  {
    var window := occurrences;
    ghost var seen: seq<string> := [];
    ghost var readings: seq<Reading> := [];
    var emotes := prior;
    while window != []
      invariant Text.Pieces(occurrences, ',') == seen + Text.Pieces(window, ',')
      invariant readings == Readings(seen)
      invariant Occurrences(prior, id, readings) == Ok(emotes)
      decreases |window|
    {
      var next := Text.Take(window, ',');
      var occurrence := next.0.value;
      Text.PiecesAdvance(occurrences, seen, window, ',');
      window := next.1;
      var reading := ReadOccurrence(occurrence);
      OccurrencesSnoc(prior, id, readings, reading);
      ReadingsSnoc(seen, occurrence);
      seen, readings := seen + [occurrence], readings + [reading];
      if reading.Malformed? {
        OccurrencesThrowAppend(prior, id, seen, Text.Pieces(window, ','));
        return Err(reading.error);
      }
      if reading.Span? {
        emotes := emotes + [Emote(id, reading.start, reading.end, [], [])];
      }
    }
    assert seen + Text.Pieces(window, ',') == seen;
    r := Ok(emotes);
  }

  /** The emote loops of ParseChatMessage over the value of the emotes tag, before sorting. */
  method ParseEmotes(value: string) returns (r: Result<seq<Emote>>)
    ensures r == EmotesOf(Text.Pieces(value, '/'))
  {
    var entries := value;
    ghost var done: seq<string> := [];
    var emotes: seq<Emote> := [];
    while entries != []
      invariant Text.Pieces(value, '/') == done + Text.Pieces(entries, '/')
      invariant EmotesOf(done) == Ok(emotes)
      decreases |entries|
    {
      var cut := Text.Take(entries, '/');
      var entry := cut.0.value;
      Text.PiecesAdvance(value, done, entries, '/');
      EmotesOfSnoc(done, entry);
      entries := cut.1;
      done := done + [entry];
      var id := Text.Take(entry, ':');
      if id.0.Some? {
        var read := ReadOccurrences(emotes, id.0.value, id.1);
        assert EmotesOf(done) == read;
        if read.Err? {
          EmotesThrow(done, Text.Pieces(entries, '/'));
          return read;
        }
        emotes := read.value;
      }
    }
    assert done + Text.Pieces(entries, '/') == done;
    r := Ok(emotes);
  }

  /** Once the reading has thrown, the remaining entries change nothing. */
  lemma {:induction false} EmotesThrow(done: seq<string>, rest: seq<string>)
    requires EmotesOf(done).Err?
    ensures EmotesOf(done + rest) == EmotesOf(done)
    decreases |rest|
  {
    if rest != [] {
      var front := done + rest[..|rest| - 1];
      assert done + rest == front + [rest[|rest| - 1]];
      EmotesThrow(done, rest[..|rest| - 1]);
      EmotesOfSnoc(front, rest[|rest| - 1]);
    } else {
      assert done + rest == done;
    }
  }

  // ---------------------------------------------------------------- sorting

  /** Non-decreasing by start offset. */
  predicate SortedByStart(s: seq<Emote>) {
    forall i, j :: 0 <= i < j < |s| ==> s[i].start <= s[j].start
  }

  /** `x` placed after every emote of `s` that does not start later. */
  function InsertByStart(x: Emote, s: seq<Emote>): (r: seq<Emote>)
    ensures multiset(r) == multiset(s) + multiset{x}
  {
    if s == [] then [x]
    else if x.start < s[0].start then [x] + s
    else
      assert s == [s[0]] + s[1..];
      [s[0]] + InsertByStart(x, s[1..])
  }

  /** Inserting into a sorted sequence keeps it sorted. */
  lemma {:induction false} InsertByStartSorted(x: Emote, s: seq<Emote>)
    requires SortedByStart(s)
    ensures SortedByStart(InsertByStart(x, s))
  {
    if s != [] && x.start >= s[0].start {
      var tail := InsertByStart(x, s[1..]);
      InsertByStartSorted(x, s[1..]);
      forall k | 0 <= k < |tail|
        ensures s[0].start <= tail[k].start
      {
        assert tail[k] in multiset(tail);
        assert tail[k] in multiset(s[1..]) + multiset{x};
        if tail[k] != x {
          assert tail[k] in s[1..];
        }
      }
    }
  }

  /**
   * The order std::sort gives the emotes under Chat::Emote's `<`, taken to
   * compare start positions only, as Media::Emote's does (entities.h:118);
   * chat.h, which defines Chat::Emote, is not part of this model.
   * std::sort is not stable; this definition fixes one of the orders it may
   * produce, the stable one.
   */
  function SortByStart(s: seq<Emote>): (r: seq<Emote>)
    ensures SortedByStart(r)
    ensures multiset(r) == multiset(s)
  {
    if s == [] then []
    else
      assert s == s[..|s| - 1] + [s[|s| - 1]];
      InsertByStartSorted(s[|s| - 1], SortByStart(s[..|s| - 1]));
      InsertByStart(s[|s| - 1], SortByStart(s[..|s| - 1]))
  }

  // ---------------------------------------------------------------- action and names

  /**
   * The `/me` wrapper: after trimming, text that starts with `\001ACTION`
   * becomes the trimmed part between the marker and the last `\001`.
   */
  function ActionOf(message: string): (r: (string, bool))
    ensures r.1 <==> ACTION <= Text.Trimmed(message)
    ensures !r.1 ==> r.0 == Text.Trimmed(message)
  {
    var t := Text.Trimmed(message);
    if ACTION <= t then (Text.Trimmed(Text.Mid(t, |ACTION|, Text.LastIndexOf(t, '\U{1}') - |ACTION|)), true)
    else (t, false)
  }

  /** The action text is what lies between the marker and a closing `\001`, or after the marker without one. */
  lemma ActionText(message: string)
    requires ACTION <= Text.Trimmed(message)
    ensures var t := Text.Trimmed(message);
      var close := Text.LastIndexOf(t, '\U{1}');
      && (close == 0 || |ACTION| <= close)
      && (close == 0 ==> ActionOf(message).0 == Text.Trimmed(t[|ACTION|..]))
      && (close >= |ACTION| ==> ActionOf(message).0 == Text.Trimmed(t[|ACTION|..close]))
  {
    var t := Text.Trimmed(message);
    ActionClose(t);
    assert ActionOf(message).0 == Text.Trimmed(Text.Mid(t, |ACTION|, Text.LastIndexOf(t, '\U{1}') - |ACTION|));
  }

  /** Past the opening marker, the last `\001` is the marker's own or comes after the marker. */
  lemma ActionClose(t: string)
    requires ACTION <= t
    ensures var close := Text.LastIndexOf(t, '\U{1}');
      close == 0 || |ACTION| <= close
  {
    var close := Text.LastIndexOf(t, '\U{1}');
    assert t[..|ACTION|] == ACTION;
    Text.LastIndexOfLast(t, '\U{1}');
    assert t[0] == '\U{1}';
  }

  /** A 32-bit unsigned result: `1+end-start` computed in unsigned int wraps modulo 2^32. */
  function Wrap32(x: int): (r: nat)
    ensures r < 0x1_0000_0000
    ensures 0 <= x < 0x1_0000_0000 ==> r == x
  {
    x % 0x1_0000_0000
  }

  /** The emote's name: `mid(start, 1+end-start)` of the displayed text. */
  function EmoteName(text: string, e: Emote): (r: string)
    ensures |r| <= |text|
  {
    Text.Mid(text, e.start, Wrap32(1 + e.end - e.start))
  }

  /** Offsets within the text name exactly the characters from start to end inclusive. */
  lemma EmoteNameInRange(text: string, e: Emote)
    requires e.start <= e.end < |text| && e.end < Convert.UINT_MAX
    ensures EmoteName(text, e) == text[e.start..e.end + 1]
  {
  }

  /** An emote starting past the end of the text has an empty name. */
  lemma EmoteNamePastEnd(text: string, e: Emote)
    requires e.start > |text|
    ensures EmoteName(text, e) == []
  {
  }

  /** The text of an occurrence from `start` to `end`, as `start-end`. */
  function OccurrenceText(start: nat, end: nat): (t: string)
    requires start <= Convert.UINT_MAX && end <= Convert.UINT_MAX
    ensures t != [] && ',' !in t && '/' !in t
  {
    var a, b := Convert.PositiveIntegerText(start), Convert.PositiveIntegerText(end);
    assert forall k :: 0 <= k < |a| ==> Convert.IsDigit(a[k]);
    assert forall k :: 0 <= k < |b| ==> Convert.IsDigit(b[k]);
    assert forall k :: 0 <= k < |a + "-" + b| ==> (a + "-" + b)[k] != ',' && (a + "-" + b)[k] != '/' by {
      forall k | 0 <= k < |a + "-" + b| ensures (a + "-" + b)[k] != ',' && (a + "-" + b)[k] != '/' {
        if k < |a| {
          assert (a + "-" + b)[k] == a[k];
        } else if k > |a| {
          assert (a + "-" + b)[k] == b[k - |a| - 1];
        }
      }
    }
    a + "-" + b
  }

  /** Two occurrences read one after the other. */
  lemma ReadingsPair(first: string, second: string)
    ensures Readings([first, second]) == [ReadingOf(first), ReadingOf(second)]
  {
  }

  /** A tag `id:occurrences` without `/` is one entry: the occurrences of that id. */
  lemma SingleEntry(id: string, occurrences: string)
    requires id != [] && ':' !in id && '/' !in id && '/' !in occurrences
    ensures EmotesOf(Text.Pieces(id + ":" + occurrences, '/')) == Occurrences([], id, Readings(Text.Pieces(occurrences, ',')))
  {
    var tag := id + ":" + occurrences;
    Text.TakeMeaning(tag, '/');
    Text.PiecesStep(tag, '/');
    EmotesOfSnoc([], tag);
    assert [] + [tag] == [tag];
    assert tag[..|id|] == id && tag[|id| + 1..] == occurrences;
    Text.TakeAt(tag, ':', |id|);
  }

  /** The occurrences `s1-e1,s2-e2` read as the two spans, in the order written. */
  lemma OccurrencePair(s1: nat, e1: nat, s2: nat, e2: nat)
    requires s1 <= Convert.UINT_MAX && e1 <= Convert.UINT_MAX && s2 <= Convert.UINT_MAX && e2 <= Convert.UINT_MAX
    ensures Readings(Text.Pieces(OccurrenceText(s1, e1) + "," + OccurrenceText(s2, e2), ',')) == [Span(s1, e1), Span(s2, e2)]
  {
    var first, second := OccurrenceText(s1, e1), OccurrenceText(s2, e2);
    Text.PiecesPair(first, second, ',');
    OccurrenceReading(s1, e1);
    OccurrenceReading(s2, e2);
    ReadingsPair(first, second);
  }

  /** Two spans in a row add their two emotes, in that order. */
  lemma SpanPair(id: string, s1: nat, e1: nat, s2: nat, e2: nat)
    ensures Occurrences([], id, [Span(s1, e1), Span(s2, e2)]) == Ok([Emote(id, s1, e1, [], []), Emote(id, s2, e2, [], [])])
  {
    OccurrencesSnoc([], id, [], Span(s1, e1));
    OccurrencesSnoc([], id, [Span(s1, e1)], Span(s2, e2));
    assert [] + [Span(s1, e1)] == [Span(s1, e1)] && [Span(s1, e1)] + [Span(s2, e2)] == [Span(s1, e1), Span(s2, e2)];
    var first, second := Emote(id, s1, e1, [], []), Emote(id, s2, e2, [], []);
    assert [] + [first] == [first] && [first] + [second] == [first, second];
  }

  /**
   * A tag with one entry `id:s1-e1,s2-e2` gives two emotes of that id, the
   * two spans in the order written.
   */
  lemma TwoOccurrences(id: string, s1: nat, e1: nat, s2: nat, e2: nat)
    requires id != [] && ':' !in id && '/' !in id
    requires s1 <= Convert.UINT_MAX && e1 <= Convert.UINT_MAX && s2 <= Convert.UINT_MAX && e2 <= Convert.UINT_MAX
    ensures var tag := id + ":" + OccurrenceText(s1, e1) + "," + OccurrenceText(s2, e2);
      EmotesOf(Text.Pieces(tag, '/')) == Ok([Emote(id, s1, e1, [], []), Emote(id, s2, e2, [], [])])
  {
    var occurrences := OccurrenceText(s1, e1) + "," + OccurrenceText(s2, e2);
    assert id + ":" + occurrences == id + ":" + OccurrenceText(s1, e1) + "," + OccurrenceText(s2, e2);
    SingleEntry(id, occurrences);
    OccurrencePair(s1, e1, s2, e2);
    SpanPair(id, s1, e1, s2, e2);
  }

  /** Over a word written twice around a space, the spans of the two copies are both named that word. */
  lemma WordTwice(word: string, id: string)
    requires word != [] && 2 * |word| < Convert.UINT_MAX
    ensures var text := word + " " + word;
      && EmoteName(text, Emote(id, 0, |word| - 1, [], [])) == word
      && EmoteName(text, Emote(id, |word| + 1, 2 * |word|, [], [])) == word
  {
    var text := word + " " + word;
    EmoteNameInRange(text, Emote(id, 0, |word| - 1, [], []));
    EmoteNameInRange(text, Emote(id, |word| + 1, 2 * |word|, [], []));
    assert text[..|word|] == word && text[|word| + 1..] == word;
  }

  /**
   * The emotes tag `25:0-4,6-10` over the text `Kappa Kappa`: two emotes of
   * id 25, from 0 to 4 and from 6 to 10, both named `Kappa`.
   */
  lemma KappaKappa()
    ensures EmotesOf(Text.Pieces("25:0-4,6-10", '/')) == Ok([Emote("25", 0, 4, [], []), Emote("25", 6, 10, [], [])])
    ensures EmoteName("Kappa Kappa", Emote("25", 0, 4, [], [])) == "Kappa"
    ensures EmoteName("Kappa Kappa", Emote("25", 6, 10, [], [])) == "Kappa"
  {
    KappaEmotes();
    KappaNames();
  }

  /** The tag `25:0-4,6-10` gives the emotes of id 25 from 0 to 4 and from 6 to 10. */
  lemma KappaEmotes()
    ensures EmotesOf(Text.Pieces("25:0-4,6-10", '/')) == Ok([Emote("25", 0, 4, [], []), Emote("25", 6, 10, [], [])])
  {
    KappaTag();
    TwoOccurrences("25", 0, 4, 6, 10);
  }

  /** Over `Kappa Kappa`, the spans from 0 to 4 and from 6 to 10 are both named `Kappa`. */
  lemma KappaNames()
    ensures EmoteName("Kappa Kappa", Emote("25", 0, 4, [], [])) == "Kappa"
    ensures EmoteName("Kappa Kappa", Emote("25", 6, 10, [], [])) == "Kappa"
  {
    assert "Kappa Kappa" == "Kappa" + " " + "Kappa";
    WordTwice("Kappa", "25");
  }

  /** The tag `25:0-4,6-10` is the entry of id 25 with the occurrences from 0 to 4 and from 6 to 10. */
  lemma KappaTag()
    ensures "25:0-4,6-10" == "25" + ":" + OccurrenceText(0, 4) + "," + OccurrenceText(6, 10)
  {
    assert Convert.PositiveIntegerText(10) == "10" by {
      assert Convert.DecimalText(10) == Convert.DecimalText(1) + [Convert.DigitChar(0)];
    }
    assert OccurrenceText(0, 4) == "0-4" && OccurrenceText(6, 10) == "6-10";
  }

  /** Where DownloadEmote keeps the image of an emote id. */
  function EmotePath(directory: string, id: string): string
  {
    directory + "/" + id + ".png"
  }

  /** The emote as the naming loop leaves it. */
  function Named(text: string, directory: string, e: Emote): Emote
  {
    e.(name := EmoteName(text, e), path := EmotePath(directory, e.id))
  }

  /** Every emote named, in order. */
  function NamedEmotes(text: string, directory: string, emotes: seq<Emote>): seq<Emote>
  {
    seq(|emotes|, i requires 0 <= i < |emotes| => Named(text, directory, emotes[i]))
  }

  /** The number of characters the emotes' names cover, counted as the naming loop counts them. */
  function EmoteCharacters(text: string, emotes: seq<Emote>): nat
  {
    if emotes == [] then 0
    else EmoteCharacters(text, emotes[..|emotes| - 1]) + |EmoteName(text, emotes[|emotes| - 1])|
  }

  /**
   * The naming loop: every emote gets its name and image path, in place, and
   * the characters the names cover are counted.
   */
  method NameEmotes(text: string, directory: string, emotes: seq<Emote>) returns (named: seq<Emote>, count: nat)
    ensures named == NamedEmotes(text, directory, emotes)
    ensures count == EmoteCharacters(text, emotes)
  {
    named, count := emotes, 0;
    var i := 0;
    while i < |named|
      invariant 0 <= i <= |named| == |emotes|
      invariant forall k :: 0 <= k < i ==> named[k] == Named(text, directory, emotes[k])
      invariant forall k :: i <= k < |named| ==> named[k] == emotes[k]
      invariant count == EmoteCharacters(text, emotes[..i])
    {
      var name := Text.Mid(text, named[i].start, Wrap32(1 + named[i].end - named[i].start));
      count := count + |name|;
      named := named[i := named[i].(name := name, path := EmotePath(directory, named[i].id))];
      assert emotes[..i + 1][..i] == emotes[..i];
      i := i + 1;
    }
    assert emotes[..i] == emotes;
    assert named == NamedEmotes(text, directory, emotes);
  }

  /** The wall-of-text rule: more non-emote characters than the threshold. */
  predicate TextWall(text: string, emotes: seq<Emote>, threshold: int) {
    |text| - EmoteCharacters(text, emotes) > threshold
  }

  /** Text without emotes is a wall exactly when it is longer than the threshold. */
  lemma TextWallWithoutEmotes(text: string, threshold: int)
    ensures TextWall(text, [], threshold) <==> |text| > threshold
  {
  }
}
