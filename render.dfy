/** The pure rules inside the message rendering of the chat page
    (chat.py, `_render_single_msg` and `_apply_filter`): the background
    colour of a sender tag, the row of tag chips, and the thumbnail URL
    asked of the image server. */
module MessageRender {
  import opened Wrappers
  import opened Text
  import opened Seqs

  /** A XAML colour, alpha first. */
  datatype Color = Color(a: Byte, r: Byte, g: Byte, b: Byte)

  /** `Colors.Gray`, the fallback background (#FF808080). */
  const Gray: Color := Color(255, 128, 128, 128)

  /** A sender tag as the server sends it; a missing colour is "". */
  datatype Tag = Tag(text: string, color: string)

  /** A tag as it is drawn: its text on a coloured background. */
  datatype Chip = Chip(text: string, background: Color)

  /** A chat message, after the camelCase/snake_case key variants have
      been merged; `contentType` 2 is an image. */
  datatype Message = Message(
    msgId: string,
    contentType: int,
    text: string,
    imageUrl: string,
    senderName: string,
    senderAvatarUrl: string,
    tags: seq<Tag>)

  /** Suffixes that ask the image server for a scaled-down copy. */
  const MessageImageThumb := "imageView2/2/w/400"
  const MessageAvatarThumb := "imageView2/2/w/60/h/60"
  const ConversationAvatarThumb := "imageView2/2/w/80/h/80"

  predicate IsHexDigit(c: char)
  {
    '0' <= c <= '9' || 'a' <= c <= 'f' || 'A' <= c <= 'F'
  }

  function HexDigitValue(c: char): (v: nat)
    requires IsHexDigit(c)
    ensures v < 16
  {
    if '0' <= c <= '9' then c as int - '0' as int
    else if 'a' <= c <= 'f' then c as int - 'a' as int + 10
    else c as int - 'A' as int + 10
  }

  /** `int(s, 16)` on a two-character slice, for clean hex digits. */
  function ParseHexByte(s: string): (r: Option<Byte>)
    requires |s| == 2
    ensures r.Some? <==> IsHexDigit(s[0]) && IsHexDigit(s[1])
  {
    if IsHexDigit(s[0]) && IsHexDigit(s[1])
    then Some(16 * HexDigitValue(s[0]) + HexDigitValue(s[1]))
    else None
  }

  predicate AllHex(h: string)
  {
    forall i :: 0 <= i < |h| ==> IsHexDigit(h[i])
  }

  /** The colour spelled by six (RRGGBB, opaque) or eight (AARRGGBB) hex
      digits; None when one of the pairs does not parse. */
  function ParseColor(h: string): (r: Option<Color>)
    requires |h| == 6 || |h| == 8
    ensures r.Some? <==> AllHex(h)
    ensures r.Some? && |h| == 6 ==> r.value.a == 255
  {
    var p0, p1, p2 := ParseHexByte(h[0..2]), ParseHexByte(h[2..4]), ParseHexByte(h[4..6]);
    if |h| == 8 then
      var p3 := ParseHexByte(h[6..8]);
      if p0.Some? && p1.Some? && p2.Some? && p3.Some?
      then Some(Color(p0.value, p1.value, p2.value, p3.value))
      else None
    else
      if p0.Some? && p1.Some? && p2.Some?
      then Some(Color(255, p0.value, p1.value, p2.value))
      else None
  }

  /** The background of a tag chip: leading '#' characters are dropped;
      eight hex digits are AARRGGBB, six are RRGGBB with alpha 255; any
      other length, a digit that does not parse, or no colour at all gives
      gray. */
  function TagColor(color: string): (c: Color)
    ensures color == "" ==> c == Gray
    ensures var h := TrimStartChar(color, '#');
            (|h| != 6 && |h| != 8) || !AllHex(h) ==> c == Gray
    ensures |TrimStartChar(color, '#')| == 6 ==> c.a == 255
  {
    if color == "" then Gray
    else
      var h := TrimStartChar(color, '#');
      if |h| == 6 || |h| == 8 then
        match ParseColor(h)
        case Some(parsed) => parsed
        case None => Gray
      else Gray
  }

  /** Upper-case hex digit for a value below 16. */
  function HexDigit(n: nat): (c: char)
    requires n < 16
    ensures IsHexDigit(c) && HexDigitValue(c) == n
  {
    if n < 10 then ('0' as int + n) as char else ('A' as int + n - 10) as char
  }

  function FormatByte(x: Byte): (s: string)
    ensures |s| == 2 && ParseHexByte(s) == Some(x)
  {
    [HexDigit(x / 16), HexDigit(x % 16)]
  }

  /** The eight-digit AARRGGBB spelling of a colour. */
  function FormatArgb(c: Color): (s: string)
    ensures |s| == 8 && s[0] != '#'
  {
    FormatByte(c.a) + FormatByte(c.r) + FormatByte(c.g) + FormatByte(c.b)
  }

  /** The six-digit RRGGBB spelling of a colour, alpha dropped. */
  function FormatRgb(c: Color): (s: string)
    ensures |s| == 6 && s[0] != '#'
  {
    FormatByte(c.r) + FormatByte(c.g) + FormatByte(c.b)
  }

  function Hashes(n: nat): (s: string)
    ensures |s| == n && forall i :: 0 <= i < n ==> s[i] == '#'
  {
    seq(n, _ => '#')
  }

  /** Any number of leading '#' characters is stripped before parsing. */
  lemma {:induction false} StripHashes(n: nat, s: string)
    requires s != [] && s[0] != '#'
    ensures TrimStartChar(Hashes(n) + s, '#') == s
  {
    if n > 0 {
      assert (Hashes(n) + s)[1..] == Hashes(n - 1) + s;
      StripHashes(n - 1, s);
    } else {
      assert Hashes(n) + s == s;
    }
  }

  /** Eight formatted digits parse back to the colour. */
  lemma ParseArgb(c: Color)
    ensures ParseColor(FormatArgb(c)) == Some(c)
  {
    var h := FormatArgb(c);
    assert h[0..2] == FormatByte(c.a) && h[2..4] == FormatByte(c.r);
    assert h[4..6] == FormatByte(c.g) && h[6..8] == FormatByte(c.b);
  }

  /** Six formatted digits parse back to the opaque colour. */
  lemma ParseRgb(c: Color)
    ensures ParseColor(FormatRgb(c)) == Some(Color(255, c.r, c.g, c.b))
  {
    var h := FormatRgb(c);
    assert h[0..2] == FormatByte(c.r) && h[2..4] == FormatByte(c.g);
    assert h[4..6] == FormatByte(c.b);
  }

  /** A colour written as AARRGGBB, with or without '#', reads back as
      itself, in upper or lower case. */
  lemma ArgbRoundTrip(c: Color, n: nat)
    ensures TagColor(Hashes(n) + FormatArgb(c)) == c
    ensures TagColor(Lower(Hashes(n) + FormatArgb(c))) == c
  {
    var h := FormatArgb(c);
    StripHashes(n, h);
    ParseArgb(c);
    TagColorIgnoresCase(Hashes(n) + h);
  }

  /** A colour written as RRGGBB reads back opaque, with the same channels,
      in upper or lower case. */
  lemma RgbRoundTrip(c: Color, n: nat)
    ensures TagColor(Hashes(n) + FormatRgb(c)) == Color(255, c.r, c.g, c.b)
    ensures TagColor(Lower(Hashes(n) + FormatRgb(c))) == Color(255, c.r, c.g, c.b)
  {
    var h := FormatRgb(c);
    StripHashes(n, h);
    ParseRgb(c);
    TagColorIgnoresCase(Hashes(n) + h);
  }

  /** Lower-casing a character keeps it a hex digit or not, and keeps the
      value of a hex digit. */
  lemma HexDigitLower(c: char)
    ensures IsHexDigit(LowerChar(c)) <==> IsHexDigit(c)
    ensures IsHexDigit(c) ==> HexDigitValue(LowerChar(c)) == HexDigitValue(c)
  {
  }

  /** Lower-casing commutes with dropping the leading '#' characters. */
  lemma {:induction false} TrimHashesLower(s: string)
    ensures TrimStartChar(Lower(s), '#') == Lower(TrimStartChar(s, '#'))
  {
    if s != [] {
      assert Lower(s)[1..] == Lower(s[1..]);
      if s[0] == '#' {
        TrimHashesLower(s[1..]);
      }
    }
  }

  /** `l` is `h` with every character lower-cased. */
  predicate LowerOf(l: string, h: string)
  {
    |l| == |h| && forall i :: 0 <= i < |h| ==> l[i] == LowerChar(h[i])
  }

  /** One pair of digits parses the same in either case. */
  lemma PairLower(l: string, h: string, i: nat)
    requires LowerOf(l, h) && i + 2 <= |h|
    ensures ParseHexByte(l[i..i + 2]) == ParseHexByte(h[i..i + 2])
  {
    HexDigitLower(h[i]);
    HexDigitLower(h[i + 1]);
    assert l[i..i + 2][0] == LowerChar(h[i]) && l[i..i + 2][1] == LowerChar(h[i + 1]);
  }

  /** Two spellings whose pairs of digits parse alike give the same colour. */
  lemma ParseColorPairs(l: string, h: string)
    requires |l| == |h| && (|h| == 6 || |h| == 8)
    requires ParseHexByte(l[0..2]) == ParseHexByte(h[0..2])
    requires ParseHexByte(l[2..4]) == ParseHexByte(h[2..4])
    requires ParseHexByte(l[4..6]) == ParseHexByte(h[4..6])
    requires |h| == 8 ==> ParseHexByte(l[6..8]) == ParseHexByte(h[6..8])
    ensures ParseColor(l) == ParseColor(h)
  {
  }

  /** Six or eight digits give the same colour in either case. */
  lemma ParseColorLower(l: string, h: string)
    requires LowerOf(l, h) && (|h| == 6 || |h| == 8)
    ensures ParseColor(l) == ParseColor(h)
  {
    PairLower(l, h, 0);
    PairLower(l, h, 2);
    PairLower(l, h, 4);
    if |h| == 8 {
      PairLower(l, h, 6);
    }
    ParseColorPairs(l, h);
  }

  /** The tag colour ignores the case of its hex digits: "#ff5733" and
      "#FF5733" are the same colour. */
  lemma TagColorIgnoresCase(color: string)
    ensures TagColor(Lower(color)) == TagColor(color)
  {
    TrimHashesLower(color);
    var h := TrimStartChar(color, '#');
    if |h| == 6 || |h| == 8 {
      ParseColorLower(Lower(h), h);
    }
  }

  /** The chip drawn for one tag. */
  function ChipOf(t: Tag): Chip
  {
    Chip(t.text, TagColor(t.color))
  }

  /** Whether a tag is drawn: its text is not empty. */
  predicate HasText(t: Tag)
  {
    t.text != ""
  }

  /** The chips drawn for a sender's tags, appended one tag at a time:
      the tags with text, in their order, each as `ChipOf` the tag. */
  function TagChips(tags: seq<Tag>): (chips: seq<Chip>)
    ensures |chips| == |Keep(tags, HasText)|
    ensures forall k :: 0 <= k < |chips| ==> chips[k] == ChipOf(Keep(tags, HasText)[k])
  {
    if tags == [] then []
    else
      var init := TagChips(tags[..|tags| - 1]);
      var t := tags[|tags| - 1];
      if HasText(t) then init + [ChipOf(t)] else init
  }

  /** The chip at position `k` is drawn for a tag with text. */
  lemma TagChipAt(tags: seq<Tag>, k: nat)
    requires k < |TagChips(tags)|
    ensures Keep(tags, HasText)[k] in tags && HasText(Keep(tags, HasText)[k])
    ensures TagChips(tags)[k] == ChipOf(Keep(tags, HasText)[k])
  {
    var kept := Keep(tags, HasText);
    assert kept[k] in kept;
    KeepSound(tags, HasText, kept[k]);
  }

  /** Only tags with text are drawn, and never more chips than tags. */
  lemma TagChipsSound(tags: seq<Tag>)
    ensures |TagChips(tags)| <= |tags|
    ensures forall k :: 0 <= k < |TagChips(tags)| ==>
      exists t :: t in tags && HasText(t) && TagChips(tags)[k] == ChipOf(t)
  {
    KeepLength(tags, HasText);
    var chips := TagChips(tags);
    forall k | 0 <= k < |chips|
      ensures exists t :: t in tags && HasText(t) && chips[k] == ChipOf(t)
    {
      TagChipAt(tags, k);
      var t := Keep(tags, HasText)[k];
      assert t in tags && HasText(t) && chips[k] == ChipOf(t);
    }
    assert forall k :: 0 <= k < |chips| ==> exists t :: t in tags && HasText(t) && chips[k] == ChipOf(t);
  }

  /** Every tag with text is drawn; when every tag has text, the chips are
      the tags one for one, in order. */
  lemma TagChipsComplete(tags: seq<Tag>)
    ensures forall t :: t in tags && HasText(t) ==> ChipOf(t) in TagChips(tags)
    ensures (forall t :: t in tags ==> HasText(t)) ==>
      |TagChips(tags)| == |tags| && forall k :: 0 <= k < |tags| ==> TagChips(tags)[k] == ChipOf(tags[k])
  {
    var kept := Keep(tags, HasText);
    var chips := TagChips(tags);
    forall t | t in tags && HasText(t) ensures ChipOf(t) in chips {
      KeepComplete(tags, HasText, t);
      var i :| 0 <= i < |kept| && kept[i] == t;
      assert chips[i] == ChipOf(t);
    }
    if forall t :: t in tags ==> HasText(t) {
      KeepAll(tags, HasText);
    }
  }

  /** `url + ("&" if "?" in url else "?") + suffix`: the suffix is added as
      a further query parameter, or starts the query when there is none. */
  function ThumbnailUrl(url: string, suffix: string): (r: string)
    ensures |r| == |url| + 1 + |suffix|
    ensures r[..|url|] == url && r[|url| + 1..] == suffix
    ensures r[|url|] == (if Contains(url, "?") then '&' else '?')
  {
    url + (if Contains(url, "?") then "&" else "?") + suffix
  }

  /** The thumbnail URL always carries a query string, and when the
      original had none, the suffix is exactly that query. */
  lemma ThumbnailHasQuery(url: string, suffix: string)
    ensures Contains(ThumbnailUrl(url, suffix), "?")
    ensures !Contains(url, "?") ==> Contains(ThumbnailUrl(url, suffix), "?" + suffix)
  {
    var r := ThumbnailUrl(url, suffix);
    if Contains(url, "?") {
      ContainsPrefix(url, r[|url|..], "?");
      assert url + r[|url|..] == r;
    } else {
      ContainsAt(r, "?" + suffix);
      assert OccursAt(r, "?" + suffix, |url|);
      ContainsAt(r, "?");
      assert OccursAt(r, "?", |url|);
    }
  }

  /** The thumbnail of a message image whose URL has no query. */
  lemma MessageImageThumbExample()
    ensures ThumbnailUrl("a", MessageImageThumb) == "a" + "?" + MessageImageThumb
  {
    assert "a"[0] != '?' && "a"[1..] == [];
  }

  /** The thumbnail of a message avatar whose URL already has a query. */
  lemma MessageAvatarThumbExample()
    ensures ThumbnailUrl("a?v", MessageAvatarThumb) == "a?v" + "&" + MessageAvatarThumb
  {
    assert "a?v"[1..] == "?v" && "?" <= "?v";
  }

  /** The thumbnail of a conversation avatar whose URL has no query. */
  lemma ConversationAvatarThumbExample()
    ensures ThumbnailUrl("b", ConversationAvatarThumb) == "b" + "?" + ConversationAvatarThumb
  {
    assert "b"[0] != '?' && "b"[1..] == [];
  }
}
