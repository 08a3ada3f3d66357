/** Reply shaping of the `POST /api/slack/youbike` handler, and its timestamp
    formatting. The handler asks `GET /api/youbike` for the station list and turns
    it into a Slack message: a "not found" notice when the list is empty,
    otherwise three blocks per station. The fetch, the environment's base URL and
    the JSON serialisation are not modelled: the station list and the image URL
    are parameters. */
module SlackYoubike {
  import opened Stations

  function Min(a: int, b: int): int { if a <= b then a else b }

  /** JavaScript `String.prototype.substring` for bounds `0 <= start <= end`,
      the only ones the handler uses: both bounds are clamped to the string. */
  function JsSubstring(s: string, start: nat, end: nat): (r: string)
    requires start <= end
    ensures |r| == Min(end, |s|) - Min(start, |s|)
    ensures end <= |s| ==> r == s[start..end]
  {
    s[Min(start, |s|)..Min(end, |s|)]
  }

  /** `formatTimestamp`: `YYYYMMDDHHMMSS` rendered as `YYYY-MM-DD HH:MM:SS`.
      On other lengths the slices clamp as JavaScript's do: characters after
      the fourteenth are dropped and missing ones give empty components. */
  function FormatTimestamp(ts: string): (r: string)
    ensures |r| == Min(|ts|, 14) + 5
    ensures |ts| == 14 ==> r[4] == '-' && r[7] == '-' && r[10] == ' ' && r[13] == ':' && r[16] == ':'
  {
    var year := JsSubstring(ts, 0, 4);
    var month := JsSubstring(ts, 4, 6);
    var day := JsSubstring(ts, 6, 8);
    var hour := JsSubstring(ts, 8, 10);
    var minute := JsSubstring(ts, 10, 12);
    var second := JsSubstring(ts, 12, 14);
    year + "-" + month + "-" + day + " " + hour + ":" + minute + ":" + second
  }

  /** The six date and time components of a 14-character timestamp appear
      unchanged between the separators. */
  lemma FormatTimestampComponents(ts: string)
    requires |ts| == 14
    ensures var r := FormatTimestamp(ts);
      r[0..4] == ts[0..4] && r[5..7] == ts[4..6] && r[8..10] == ts[6..8] &&
      r[11..13] == ts[8..10] && r[14..16] == ts[10..12] && r[17..19] == ts[12..14]
  {
  }

  /** Characters after the fourteenth never reach the output. */
  lemma FormatTimestampIgnoresTail(ts: string)
    requires |ts| >= 14
    ensures FormatTimestamp(ts) == FormatTimestamp(ts[..14])
  {
    var p := ts[..14];
    assert ts[0..4] == p[0..4] && ts[4..6] == p[4..6] && ts[6..8] == p[6..8];
    assert ts[8..10] == p[8..10] && ts[10..12] == p[10..12] && ts[12..14] == p[12..14];
  }

  lemma FormatTimestampExample()
    ensures FormatTimestamp("20240115093045") == "2024-01-15 09:30:45"
  {
  }

  /** A string of the shape `YYYY-MM-DD HH:MM:SS` (separators only checked). */
  predicate IsFormatted(s: string) {
    |s| == 19 && s[4] == '-' && s[7] == '-' && s[10] == ' ' && s[13] == ':' && s[16] == ':'
  }

  /** The inverse of formatting: drop the five separators. */
  function StripSeparators(s: string): (r: string)
    requires |s| == 19
    ensures |r| == 14
  {
    s[0..4] + s[5..7] + s[8..10] + s[11..13] + s[14..16] + s[17..19]
  }

  /** Formatting then stripping gives the timestamp back. */
  lemma FormatThenStrip(ts: string)
    requires |ts| == 14
    ensures StripSeparators(FormatTimestamp(ts)) == ts
  {
    var r := FormatTimestamp(ts);
    FormatTimestampComponents(ts);
    assert ts == ts[0..4] + ts[4..6] + ts[6..8] + ts[8..10] + ts[10..12] + ts[12..14];
  }

  /** Stripping then formatting gives a formatted string back, so formatting is
      a bijection between 14-character strings and formatted strings. */
  lemma StripThenFormat(s: string)
    requires IsFormatted(s)
    ensures IsFormatted(FormatTimestamp(StripSeparators(s)))
    ensures FormatTimestamp(StripSeparators(s)) == s
  {
    var ts := StripSeparators(s);
    var r := FormatTimestamp(ts);
    FormatTimestampComponents(ts);
    assert ts[0..4] == s[0..4] && ts[4..6] == s[5..7] && ts[6..8] == s[8..10];
    assert ts[8..10] == s[11..13] && ts[10..12] == s[14..16] && ts[12..14] == s[17..19];
    assert s == s[0..4] + [s[4]] + s[5..7] + [s[7]] + s[8..10] + [s[10]] + s[11..13] + [s[13]] + s[14..16] + [s[16]] + s[17..19];
    assert r == r[0..4] + [r[4]] + r[5..7] + [r[7]] + r[8..10] + [r[10]] + r[11..13] + [r[13]] + r[14..16] + [r[16]] + r[17..19];
  }

  /** One Slack block, by its content fields. */
  datatype Block =
    | Section(name: string, bikes: int, parking: int, imageUrl: string)
    | Context(time: string)
    | Divider

  /** The handler's answer. */
  datatype Reply = Ephemeral(text: string) | InChannel(blocks: seq<Block>)

  const NotFoundText: string := "抱歉，我現在找不到站點。"

  /** The three blocks one station contributes to the `flatMap`. */
  function StationBlocks(s: Station, imageUrl: string): seq<Block>
  {
    [ Section(s.sna, s.bikesAvailable, s.parkingAvailable, imageUrl),
      Context(FormatTimestamp(s.lastUpdated)),
      Divider ]
  }

  /** `stations.flatMap(...)`. */
  function BuildBlocks(stations: seq<Station>, imageUrl: string): (r: seq<Block>)
    ensures |r| == 3 * |stations|
  {
    if stations == [] then [] else StationBlocks(stations[0], imageUrl) + BuildBlocks(stations[1..], imageUrl)
  }

  /** The three blocks from position `3i` on are station `i`'s. */
  lemma {:induction false} BuildBlocksAtIndex(stations: seq<Station>, imageUrl: string, i: nat)
    requires i < |stations|
    ensures BuildBlocks(stations, imageUrl)[3 * i..3 * i + 3] == StationBlocks(stations[i], imageUrl)
  {
    var head := StationBlocks(stations[0], imageUrl);
    var rest := BuildBlocks(stations[1..], imageUrl);
    var r := BuildBlocks(stations, imageUrl);
    assert r == head + rest;
    if i > 0 {
      BuildBlocksAtIndex(stations[1..], imageUrl, i - 1);
      assert stations[1..][i - 1] == stations[i];
      assert r[3 * i..3 * i + 3] == rest[3 * (i - 1)..3 * (i - 1) + 3];
    } else {
      assert r[0..3] == head;
    }
  }

  /** Block `3i` is station `i`'s section, block `3i+1` its update time and
      block `3i+2` a divider: station order is kept. */
  lemma BuildBlocksAt(stations: seq<Station>, imageUrl: string)
    ensures var r := BuildBlocks(stations, imageUrl);
      forall i :: 0 <= i < |stations| ==>
        r[3 * i] == Section(stations[i].sna, stations[i].bikesAvailable, stations[i].parkingAvailable, imageUrl) &&
        r[3 * i + 1] == Context(FormatTimestamp(stations[i].lastUpdated)) &&
        r[3 * i + 2] == Divider
  {
    var r := BuildBlocks(stations, imageUrl);
    forall i | 0 <= i < |stations|
      ensures r[3 * i] == Section(stations[i].sna, stations[i].bikesAvailable, stations[i].parkingAvailable, imageUrl)
      ensures r[3 * i + 1] == Context(FormatTimestamp(stations[i].lastUpdated))
      ensures r[3 * i + 2] == Divider
    {
      BuildBlocksAtIndex(stations, imageUrl, i);
      var w := r[3 * i..3 * i + 3];
      assert r[3 * i] == w[0] && r[3 * i + 1] == w[1] && r[3 * i + 2] == w[2];
    }
  }

  /** Every section's accessory shows the one image URL. */
  lemma {:induction false} BuildBlocksImage(stations: seq<Station>, imageUrl: string)
    ensures forall b :: b in BuildBlocks(stations, imageUrl) && b.Section? ==> b.imageUrl == imageUrl
  {
    if stations != [] {
      BuildBlocksImage(stations[1..], imageUrl);
    }
  }

  /** The pure part of `POST`. */
  function MakeReply(stations: seq<Station>, imageUrl: string): (r: Reply)
    ensures r.Ephemeral? <==> stations == []
    ensures r.Ephemeral? ==> r.text == NotFoundText
    ensures r.InChannel? ==> |r.blocks| == 3 * |stations|
    ensures r.InChannel? ==> forall i :: 0 <= i < |stations| ==>
      r.blocks[3 * i] == Section(stations[i].sna, stations[i].bikesAvailable, stations[i].parkingAvailable, imageUrl) &&
      r.blocks[3 * i + 1] == Context(FormatTimestamp(stations[i].lastUpdated)) &&
      r.blocks[3 * i + 2] == Divider
    ensures r.InChannel? ==> forall b :: b in r.blocks && b.Section? ==> b.imageUrl == imageUrl
  {
    if |stations| == 0 then Ephemeral(NotFoundText)
    else
      BuildBlocksAt(stations, imageUrl);
      BuildBlocksImage(stations, imageUrl);
      InChannel(BuildBlocks(stations, imageUrl))
  }

  /** The whole pipeline behind the Slack command, from upstream records: the
      reply is "not found" exactly when no upstream record is a target. */
  lemma ReplyFromUpstream(data: seq<UpstreamRecord>, imageUrl: string)
    ensures MakeReply(SelectTargets(data), imageUrl).Ephemeral? <==>
      forall i :: 0 <= i < |data| ==> data[i].sna !in TargetStations
  {
    SelectCharacterisation(TargetStations, data);
    var k := KeptIndices(TargetStations, data, 0);
    if |SelectTargets(data)| > 0 {
      assert data[k[0]].sna in TargetStations;
    } else {
      forall i | 0 <= i < |data| ensures data[i].sna !in TargetStations {
        assert data[i].sna in TargetStations ==> i in k;
      }
    }
  }
}
