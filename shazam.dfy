/** How the "Use Shazam" command turns a recognised track into its reply:
    embed colour, metadata fields, cover image, and the row of streaming
    links that is added when the track has an Apple Music link. The
    recognition itself and the two link-resolution requests are inputs. */
module Shazam {
  import opened Wrappers
  import Rows

  const Unknown: string := "Unknown"
  const OpenIn: string := "OPEN IN"
  const AppleHost: string := "music.apple.com"
  const SubscribePath: string := "/subscribe"
  const UnresolvedCode: string := "COULD_NOT_RESOLVE_ENTITY"

  datatype MetaItem = MetaItem(title: string, text: Option<string>)
  datatype Section = Section(metadata: Option<seq<MetaItem>>)
  datatype Images = Images(joecolor: Option<string>, coverart: Option<string>, coverarthq: Option<string>)
  datatype Action = Action(uri: Option<string>)
  datatype HubOption = HubOption(caption: string, actions: seq<Action>)

  /** The parts of a recognised track the reply reads. */
  datatype Track = Track(
    sections: seq<Section>,
    genrePrimary: Option<string>,
    isrc: Option<string>,
    explicit: Option<bool>,
    images: Option<Images>,
    hubOptions: seq<HubOption>)

  datatype Field = Field(name: string, value: string, inline: bool)

  /** A link-style button: the platform's emoji and the track's URL there. */
  datatype LinkButton = LinkButton(emoji: string, url: string)

  /** One entry of the configured platform-to-emoji table, in file order. */
  datatype PlatformEmoji = PlatformEmoji(platform: string, emoji: string)

  datatype Config = Config(shazamColour: string, linkEmojis: seq<PlatformEmoji>)

  /** Why building the reply stops: a property read on `undefined`, or the
      link resolver's refusal. */
  datatype Fault = SectionMissing | ImagesMissing | ActionUriMissing | CouldNotResolveEntity

  datatype Reply = Reply(
    colour: string,
    fields: seq<Field>,
    cover: Option<string>,
    components: Option<seq<seq<LinkButton>>>)

  /** JavaScript truthiness of an optional string. */
  predicate Truthy(s: Option<string>) {
    s.Some? && s.value != ""
  }

  // ---- Embed colour: six hex digits after the first "b:" in joecolor ----

  predicate IsHex(c: char) {
    '0' <= c <= '9' || 'a' <= c <= 'f' || 'A' <= c <= 'F'
  }

  /** `b:` followed by six hexadecimal digits starts at position i. */
  predicate MatchAt(s: string, i: int) {
    0 <= i && i + 8 <= |s| && s[i] == 'b' && s[i + 1] == ':' &&
    forall k :: i + 2 <= k < i + 8 ==> IsHex(s[k])
  }

  /** The leftmost match at or after `from`, as the regular expression finds it. */
  function FirstMatch(s: string, from: nat): (r: Option<nat>)
    requires from <= |s|
    ensures r.Some? ==> from <= r.value && MatchAt(s, r.value) &&
                        forall j :: from <= j < r.value ==> !MatchAt(s, j)
    ensures r.None? ==> forall j :: from <= j ==> !MatchAt(s, j)
    decreases |s| - from
  {
    if from + 8 > |s| then None
    else if MatchAt(s, from) then Some(from)
    else FirstMatch(s, from + 1)
  }

  /** The embed colour: "#" and the six digits of the leftmost `b:` match in
      a truthy `joecolor`, otherwise the configured default. */
  function Colour(joecolor: Option<string>, default: string): (r: string)
    ensures joecolor.Some? && (exists i :: MatchAt(joecolor.value, i)) ==>
      var s := joecolor.value;
      exists i :: MatchAt(s, i) && (forall j :: 0 <= j < i ==> !MatchAt(s, j)) &&
                  r == "#" + s[i + 2..i + 8]
    ensures !(joecolor.Some? && exists i :: MatchAt(joecolor.value, i)) ==> r == default
  {
    if Truthy(joecolor) then
      match FirstMatch(joecolor.value, 0)
      case Some(i) => "#" + joecolor.value[i + 2..i + 8]
      case None => default
    else default
  }

  /** A matched colour is "#" and six hexadecimal digits. */
  lemma ColourShape(joecolor: string, default: string)
    requires exists i :: MatchAt(joecolor, i)
    ensures var r := Colour(Some(joecolor), default);
      |r| == 7 && r[0] == '#' && forall k :: 1 <= k < 7 ==> IsHex(r[k])
  {
    var r := Colour(Some(joecolor), default);
    var i :| MatchAt(joecolor, i) && (forall j :: 0 <= j < i ==> !MatchAt(joecolor, j)) &&
             r == "#" + joecolor[i + 2..i + 8];
    forall k | 1 <= k < 7 ensures IsHex(r[k]) {
      assert r[k] == joecolor[i + 1 + k];
    }
  }

  /** Text after a match does not move the leftmost match. */
  lemma FirstMatchPrefix(joecolor: string, tail: string)
    requires exists i :: MatchAt(joecolor, i)
    ensures FirstMatch(joecolor + tail, 0) == FirstMatch(joecolor, 0)
  {
    var s := joecolor + tail;
    var i := FirstMatch(joecolor, 0).value;
    assert MatchAt(s, i) by {
      assert forall k :: i <= k < i + 8 ==> s[k] == joecolor[k];
    }
    forall j | 0 <= j < i ensures !MatchAt(s, j) {
      if MatchAt(s, j) {
        assert forall k :: j <= k < j + 8 ==> s[k] == joecolor[k];
        assert MatchAt(joecolor, j);
      }
    }
  }

  /** Whatever follows a match does not change the colour: only the six
      digits after the leftmost `b:` count. */
  lemma ColourIgnoresSuffix(joecolor: string, tail: string, default: string)
    requires exists i :: MatchAt(joecolor, i)
    ensures Colour(Some(joecolor + tail), default) == Colour(Some(joecolor), default)
  {
    var s := joecolor + tail;
    FirstMatchPrefix(joecolor, tail);
    var i := FirstMatch(joecolor, 0).value;
    assert joecolor != "" && s != "";
    assert s[i + 2..i + 8] == joecolor[i + 2..i + 8];
  }

  // ---- Metadata fields ----

  /** The first metadata item with the given title, if any. */
  function FindMeta(items: seq<MetaItem>, title: string): (r: Option<MetaItem>)
    ensures r.Some? ==> exists j :: 0 <= j < |items| && items[j] == r.value && items[j].title == title &&
                                    forall k :: 0 <= k < j ==> items[k].title != title
    ensures r.None? ==> forall k :: 0 <= k < |items| ==> items[k].title != title
  {
    if items == [] then None
    else if items[0].title == title then Some(items[0])
    else
      var rest := FindMeta(items[1..], title);
      assert forall k :: 1 <= k < |items| ==> items[k] == items[1..][k - 1];
      rest
  }

  /** The text of a section's first metadata item with the given title;
      absent when the section has no metadata, no such item, or no text. */
  function MetaText(section: Section, title: string): Option<string> {
    match section.metadata
    case None => None
    case Some(items) =>
      match FindMeta(items, title)
      case None => None
      case Some(item) => item.text
  }

  /** A truthy value as it is, anything else as the word "Unknown". */
  function OrUnknown(s: Option<string>): string {
    if Truthy(s) then s.value else Unknown
  }

  /** The Explicit field: unknown, explicit and clean each get their own mark,
      none of them the word "Unknown". */
  function ExplicitMark(explicit: Option<bool>): (r: string)
    ensures r != Unknown
    ensures explicit.None? <==> r == "❔"
    ensures explicit == Some(true) <==> r == "✅"
    ensures explicit == Some(false) <==> r == "❌"
  {
    match explicit
    case None => "❔"
    case Some(b) => if b then "✅" else "❌"
  }

  const FieldNames: seq<string> := ["Album", "Released", "Genre", "Label", "ISRC", "Explicit"]

  /** Where the value of each of the first five fields comes from: the first
      section's metadata for album, release date and label, the primary
      genre, and the ISRC. */
  function FieldSource(track: Track, k: nat): Option<string>
    requires |track.sections| > 0 && k < 5
  {
    var s := track.sections[0];
    if k == 0 then MetaText(s, "Album")
    else if k == 1 then MetaText(s, "Released")
    else if k == 2 then track.genrePrimary
    else if k == 3 then MetaText(s, "Label")
    else track.isrc
  }

  /** The six fields in display order; reading the first section of a track
      without sections fails. */
  function Fields(track: Track): (r: Result<seq<Field>, Fault>)
    ensures r.Success? <==> |track.sections| > 0
    ensures r.Success? ==> |r.value| == 6 && r.value[5] == Field("Explicit", ExplicitMark(track.explicit), true)
    ensures r.Success? ==> forall k :: 0 <= k < 6 ==> r.value[k].name == FieldNames[k] && r.value[k].inline
  {
    if |track.sections| == 0 then Failure(SectionMissing)
    else
      Success([
        Field(FieldNames[0], OrUnknown(FieldSource(track, 0)), true),
        Field(FieldNames[1], OrUnknown(FieldSource(track, 1)), true),
        Field(FieldNames[2], OrUnknown(FieldSource(track, 2)), true),
        Field(FieldNames[3], OrUnknown(FieldSource(track, 3)), true),
        Field(FieldNames[4], OrUnknown(FieldSource(track, 4)), true),
        Field(FieldNames[5], ExplicitMark(track.explicit), true)
      ])
  }

  /** Each of the first five fields is shown exactly when its source value is
      truthy and not itself the word "Unknown", and then it shows that value. */
  lemma FieldShown(track: Track, k: nat)
    requires |track.sections| > 0 && k < 5
    ensures var f := Fields(track).value[k];
      var src := FieldSource(track, k);
      f.name == FieldNames[k] &&
      (f in FilterKnown(Fields(track).value) <==> Truthy(src) && src.value != Unknown) &&
      (f in FilterKnown(Fields(track).value) ==> f.value == src.value)
  {
  }

  /** The fields whose value is not the word "Unknown". */
  function FilterKnown(fields: seq<Field>): (r: seq<Field>)
    ensures |r| <= |fields|
    ensures forall f :: f in r <==> f in fields && f.value != Unknown
  {
    if fields == [] then []
    else if fields[0].value != Unknown then [fields[0]] + FilterKnown(fields[1..])
    else FilterKnown(fields[1..])
  }

  /** Filtering keeps the original order: it distributes over concatenation. */
  lemma {:induction false} FilterKnownAppend(a: seq<Field>, b: seq<Field>)
    ensures FilterKnown(a + b) == FilterKnown(a) + FilterKnown(b)
  {
    if a == [] {
      assert a + b == b;
    } else {
      assert (a + b)[0] == a[0];
      assert (a + b)[1..] == a[1..] + b;
      FilterKnownAppend(a[1..], b);
    }
  }

  /** The shown fields are one to six, and the Explicit field, which is never
      "Unknown", is always the last of them. */
  lemma ExplicitAlwaysShown(track: Track)
    requires |track.sections| > 0
    ensures var shown := FilterKnown(Fields(track).value);
      1 <= |shown| <= 6 && shown[|shown| - 1] == Field("Explicit", ExplicitMark(track.explicit), true)
  {
    var fields := Fields(track).value;
    assert fields == fields[..5] + [fields[5]];
    FilterKnownAppend(fields[..5], [fields[5]]);
    assert FilterKnown([fields[5]]) == [fields[5]] by {
      assert [fields[5]][1..] == [];
    }
  }

  // ---- Cover image ----

  /** The high-quality cover when it is truthy, otherwise the plain one. */
  function Cover(images: Images): (r: Option<string>)
    ensures r == images.coverarthq || r == images.coverart
    ensures Truthy(images.coverarthq) ==> r == images.coverarthq
    ensures r != images.coverart ==> Truthy(r)
  {
    if Truthy(images.coverarthq) then images.coverarthq else images.coverart
  }

  // ---- Apple Music link ----

  /** `sub` occurs somewhere in `s`. */
  predicate Contains(s: string, sub: string) {
    sub <= s || (s != [] && Contains(s[1..], sub))
  }

  predicate IsAppleUri(uri: string) {
    Contains(uri, AppleHost) && !Contains(uri, SubscribePath)
  }

  /** The index of the first option captioned "OPEN IN", if any. */
  function FindOpenIn(options: seq<HubOption>): (r: Option<nat>)
    ensures r.Some? ==> r.value < |options| && options[r.value].caption == OpenIn &&
                        forall k :: 0 <= k < r.value ==> options[k].caption != OpenIn
    ensures r.None? ==> forall k :: 0 <= k < |options| ==> options[k].caption != OpenIn
  {
    if options == [] then None
    else if options[0].caption == OpenIn then Some(0)
    else match FindOpenIn(options[1..])
      case None => None
      case Some(k) => Some(k + 1)
  }

  /** The uri of the first action whose uri points at Apple Music and is not
      a subscription link; reaching an action without a uri fails. */
  function FindAppleAction(actions: seq<Action>): (r: Result<Option<string>, Fault>)
    ensures r.Success? && r.value.Some? ==>
      exists j :: 0 <= j < |actions| && actions[j].uri == r.value && IsAppleUri(r.value.value) &&
        forall k :: 0 <= k < j ==> actions[k].uri.Some? && !IsAppleUri(actions[k].uri.value)
    ensures r.Success? && r.value.None? ==>
      forall k :: 0 <= k < |actions| ==> actions[k].uri.Some? && !IsAppleUri(actions[k].uri.value)
    ensures r.Failure? ==> (r.error == ActionUriMissing &&
      exists j :: 0 <= j < |actions| && actions[j].uri.None? &&
        forall k :: 0 <= k < j ==> actions[k].uri.Some? && !IsAppleUri(actions[k].uri.value))
  {
    if actions == [] then Success(None)
    else match actions[0].uri
      case None => Failure(ActionUriMissing)
      case Some(u) =>
        if IsAppleUri(u) then Success(Some(u))
        else
          var rest := FindAppleAction(actions[1..]);
          assert forall j :: 1 <= j < |actions| ==> actions[j] == actions[1..][j - 1];
          rest
  }

  /** The Apple Music URL: the first qualifying action of the first
      "OPEN IN" option, if there is one. */
  function AppleUrl(options: seq<HubOption>): (r: Result<Option<string>, Fault>)
    ensures (forall i :: 0 <= i < |options| ==> options[i].caption != OpenIn) ==> r == Success(None)
    ensures r != Success(None) ==>
      exists i :: 0 <= i < |options| && FirstOpenIn(options, i) &&
        (r.Success? ==> exists j :: (0 <= j < |options[i].actions| &&
           options[i].actions[j].uri == r.value && IsAppleUri(r.value.value) &&
           forall k :: 0 <= k < j ==> options[i].actions[k].uri.Some? && !IsAppleUri(options[i].actions[k].uri.value)))
    ensures r == Success(None) ==>
      forall i :: 0 <= i < |options| && FirstOpenIn(options, i) ==>
        forall k :: 0 <= k < |options[i].actions| ==>
          options[i].actions[k].uri.Some? && !IsAppleUri(options[i].actions[k].uri.value)
    ensures r.Failure? ==> (r.error == ActionUriMissing &&
      exists i :: 0 <= i < |options| && FirstOpenIn(options, i) &&
        exists j :: (0 <= j < |options[i].actions| && options[i].actions[j].uri.None? &&
          forall k :: 0 <= k < j ==> options[i].actions[k].uri.Some? && !IsAppleUri(options[i].actions[k].uri.value)))
  {
    match FindOpenIn(options)
    case None => Success(None)
    case Some(k) => FindAppleAction(options[k].actions)
  }

  /** Option i is the first one captioned "OPEN IN". */
  ghost predicate FirstOpenIn(options: seq<HubOption>, i: int) {
    0 <= i < |options| && options[i].caption == OpenIn &&
    forall k :: 0 <= k < i ==> options[k].caption != OpenIn
  }

  // ---- Streaming link buttons ----

  /** One link button per configured platform the track has a link for, in
      configuration order. */
  function SelectLinks(platforms: seq<PlatformEmoji>, links: map<string, string>): seq<LinkButton> {
    if platforms == [] then []
    else
      var p := platforms[0];
      (if p.platform in links then [LinkButton(p.emoji, links[p.platform])] else [])
      + SelectLinks(platforms[1..], links)
  }

  /** Selection follows configuration order: it distributes over concatenation. */
  lemma {:induction false} SelectLinksAppend(a: seq<PlatformEmoji>, b: seq<PlatformEmoji>, links: map<string, string>)
    ensures SelectLinks(a + b, links) == SelectLinks(a, links) + SelectLinks(b, links)
  {
    if a == [] {
      assert a + b == b;
    } else {
      assert (a + b)[0] == a[0];
      assert (a + b)[1..] == a[1..] + b;
      SelectLinksAppend(a[1..], b, links);
    }
  }

  /** A button is made exactly for the configured platforms present in the
      links, carrying that platform's emoji and URL; there is one button per
      platform exactly when every configured platform has a link. */
  lemma {:induction false} SelectLinksExact(platforms: seq<PlatformEmoji>, links: map<string, string>)
    ensures forall b :: b in SelectLinks(platforms, links) <==>
      exists k :: 0 <= k < |platforms| && platforms[k].platform in links &&
                  b == LinkButton(platforms[k].emoji, links[platforms[k].platform])
    ensures |SelectLinks(platforms, links)| <= |platforms|
    ensures |SelectLinks(platforms, links)| == |platforms| <==>
      forall k :: 0 <= k < |platforms| ==> platforms[k].platform in links
  {
    if platforms != [] {
      SelectLinksExact(platforms[1..], links);
      assert forall k :: 1 <= k < |platforms| ==> platforms[k] == platforms[1..][k - 1];
      var r := SelectLinks(platforms, links);
      forall b | b in r
        ensures exists k :: 0 <= k < |platforms| && platforms[k].platform in links &&
                            b == LinkButton(platforms[k].emoji, links[platforms[k].platform])
      {
        if b !in SelectLinks(platforms[1..], links) {
          assert platforms[0].platform in links;
        } else {
          var k :| 0 <= k < |platforms[1..]| && platforms[1..][k].platform in links &&
                   b == LinkButton(platforms[1..][k].emoji, links[platforms[1..][k].platform]);
          assert platforms[k + 1] == platforms[1..][k];
        }
      }
    }
  }

  /** The link-button loop over the configured platforms. */
  method LinkButtons(platforms: seq<PlatformEmoji>, links: map<string, string>) returns (buttons: seq<LinkButton>)
    ensures buttons == SelectLinks(platforms, links)
  {
    buttons := [];
    for i := 0 to |platforms|
      invariant buttons == SelectLinks(platforms[..i], links)
    {
      var p := platforms[i];
      if p.platform in links {
        buttons := buttons + [LinkButton(p.emoji, links[p.platform])];
      }
      assert platforms[..i + 1] == platforms[..i] + [p];
      SelectLinksAppend(platforms[..i], [p], links);
      assert [p][1..] == [];
    }
    assert platforms[..|platforms|] == platforms;
  }

  /** Zero link buttons give zero rows, and otherwise ceil(n / 5) rows that
      hold the buttons in order. */
  lemma LinkRows(platforms: seq<PlatformEmoji>, links: map<string, string>)
    ensures var buttons := SelectLinks(platforms, links);
      var rows := Rows.Chunks(buttons);
      Rows.Flatten(rows) == buttons && Rows.WellShaped(rows) &&
      |rows| == Rows.CeilDiv5(|buttons|) && (buttons == [] <==> rows == [])
  {
    Rows.ChunksPartition(SelectLinks(platforms, links));
  }

  // ---- The reply ----

  function JoeColor(track: Track): Option<string> {
    if track.images.Some? then track.images.value.joecolor else None
  }

  /** Builds the reply for a recognised track. `odesliCode` is the `code` of
      the link resolver's answer and `songLinks` the song's links by platform
      (URL per platform key); both are only consulted when an Apple Music URL
      was found. Faults happen in the order the source reads the values. */
  method ShapeTrack(track: Track, config: Config, odesliCode: Option<string>, songLinks: map<string, string>)
    returns (r: Result<Reply, Fault>)
    ensures |track.sections| == 0 ==> r == Failure(SectionMissing)
    ensures |track.sections| > 0 && track.images.None? ==> r == Failure(ImagesMissing)
    ensures |track.sections| > 0 && track.images.Some? && AppleUrl(track.hubOptions).Failure? ==>
      r == Failure(ActionUriMissing)
    ensures |track.sections| > 0 && track.images.Some? && AppleUrl(track.hubOptions).Success? &&
            AppleUrl(track.hubOptions).value.Some? && odesliCode == Some(UnresolvedCode) ==>
      r == Failure(CouldNotResolveEntity)
    ensures |track.sections| > 0 && track.images.Some? && AppleUrl(track.hubOptions).Success? &&
            !(AppleUrl(track.hubOptions).value.Some? && odesliCode == Some(UnresolvedCode)) ==>
      r.Success?
    ensures r.Success? ==>
      r.value.colour == Colour(JoeColor(track), config.shazamColour) &&
      r.value.fields == FilterKnown(Fields(track).value) &&
      r.value.cover == Cover(track.images.value)
    ensures r.Success? ==>
      (r.value.components.Some? <==> AppleUrl(track.hubOptions).value.Some?)
    ensures r.Success? && r.value.components.Some? ==>
      Rows.Flatten(r.value.components.value) == SelectLinks(config.linkEmojis, songLinks) &&
      Rows.WellShaped(r.value.components.value)
  {
    var colour := Colour(JoeColor(track), config.shazamColour);
    var fields := Fields(track);
    if fields.Failure? {
      return Failure(fields.error);
    }
    var shown := FilterKnown(fields.value);
    if track.images.None? {
      return Failure(ImagesMissing);
    }
    var cover := Cover(track.images.value);
    var payload := Reply(colour, shown, cover, None);
    var apple := AppleUrl(track.hubOptions);
    if apple.Failure? {
      return Failure(apple.error);
    }
    if apple.value.Some? {
      if odesliCode == Some(UnresolvedCode) {
        return Failure(CouldNotResolveEntity);
      }
      var buttons := LinkButtons(config.linkEmojis, songLinks);
      var rows := Rows.ChunkRows(buttons);
      Rows.ChunksPartition(buttons);
      payload := payload.(components := Some(rows));
    }
    return Success(payload);
  }
}
