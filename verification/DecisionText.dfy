/**
 * qvault/evidence.py, `decision_text_html`: a decision's text as HTML, its Ethereum addresses marked.
 *
 * `Read` is the other side: a strict reader of HTML that says, for each character a person would see,
 * which elements it stands in and whether the line may break before it.
 */
module DecisionText {
  import opened Wrappers

  // ---------------------------------------------------------------- writing

  function EscapeChar(c: char): string {
    if c == '&' then "&amp;"
    else if c == '<' then "&lt;"
    else if c == '>' then "&gt;"
    else if c == '\'' then "&#39;"
    else if c == '"' then "&#34;"
    else [c]
  }

  /** `markupsafe.escape` */
  function Escape(text: string): string {
    if text == "" then "" else EscapeChar(text[0]) + Escape(text[1..])
  }

  /** Nothing is left that could open or close a tag or an attribute's value. */
  lemma {:induction false} EscapedIsInert(text: string)
    ensures forall c :: c in Escape(text) ==> c != '<' && c != '>' && c != '\'' && c != '"'
  {
    if text != "" {
      EscapedIsInert(text[1..]);
    }
  }

  predicate IsHex(c: char) {
    '0' <= c <= '9' || 'a' <= c <= 'f' || 'A' <= c <= 'F'
  }

  function HexRun(s: string): (r: nat)
    ensures r <= |s|
    ensures forall i :: 0 <= i < r ==> IsHex(s[i])
    ensures r < |s| ==> !IsHex(s[r])
  {
    if s == "" || !IsHex(s[0]) then 0 else 1 + HexRun(s[1..])
  }

  /** The pattern matches here: `0x` and forty hex digits, with no further one after them. */
  predicate AddressAt(s: string) {
    |s| >= 42 && s[0] == '0' && s[1] == 'x' && HexRun(s[2..]) == 40
  }

  /** The characters that count as hexadecimal digits, in either case. */
  const HEX_DIGITS := "0123456789abcdefABCDEF"

  lemma HexDigitsAre(c: char)
    ensures IsHex(c) <==> c in HEX_DIGITS
  {
    var digits := HEX_DIGITS;
    if IsHex(c) {
      var i := if c <= '9' then c as int - '0' as int else if c <= 'F' then 16 + c as int - 'A' as int
               else 10 + c as int - 'a' as int;
      assert digits[i] == c;
    }
  }

  /** An address is `0x` and forty digits of either case, and no forty-first. */
  lemma AddressIsFortyDigits(s: string)
    ensures AddressAt(s)
            <==> && |s| >= 42 && s[..2] == "0x" && (forall i :: 2 <= i < 42 ==> s[i] in HEX_DIGITS)
                 && (|s| > 42 ==> s[42] !in HEX_DIGITS)
  {
    forall c: char ensures IsHex(c) <==> c in HEX_DIGITS { HexDigitsAre(c); }
    hide HexRun, IsHex;
    if |s| >= 42 {
      var rest := s[2..];
      var r := HexRun(rest);
      assert forall i :: 0 <= i < |rest| ==> rest[i] == s[i + 2];
      assert forall i :: 2 <= i < |s| ==> s[i] == rest[i - 2];
    }
  }

  const ATTRIBUTES := "class=\"q-addr\" translate=\"no\""
  const SPAN := "<span " + ATTRIBUTES + ">"

  function Before(i: nat): string {
    (if i == 10 || i == 20 || i == 30 then "<wbr>" else "") + (if i == 2 || i == 34 then "<b>" else "")
  }

  function After(i: nat): string {
    if i == 9 || i == 41 then "</b>" else ""
  }

  function Pieces(address: string, i: nat): string
    requires i <= |address|
    decreases |address| - i
  {
    if i == |address| then "" else Before(i) + [address[i]] + After(i) + Pieces(address, i + 1)
  }

  function AddressHtml(address: string): string {
    SPAN + Pieces(address, 0) + "</span>"
  }

  /** No mark stands from i up to j. */
  predicate Unmarked(i: nat, j: nat) {
    j <= 2 || (3 <= i && j <= 9) || (11 <= i && j <= 20) || (21 <= i && j <= 30) || (31 <= i && j <= 34)
    || (35 <= i && j <= 41)
  }

  lemma OnePiece(a: string, i: nat)
    requires i < |a|
    ensures Pieces(a, i) == Before(i) + a[i..i + 1] + After(i) + Pieces(a, i + 1)
    ensures Unmarked(i, i + 1) ==> Pieces(a, i) == a[i..i + 1] + Pieces(a, i + 1)
  {
    assert a[i..i + 1] == [a[i]];
    if Unmarked(i, i + 1) { assert "" + a[i..i + 1] + "" == a[i..i + 1]; }
  }

  /** Where no mark stands, an address is written as it is. */
  lemma {:induction false} PlainPieces(a: string, i: nat, j: nat)
    requires i <= j <= |a| && Unmarked(i, j)
    ensures Pieces(a, i) == a[i..j] + Pieces(a, j)
    decreases j - i
  {
    hide Pieces;
    if i < j {
      OnePiece(a, i);
      PlainPieces(a, i + 1, j);
      assert a[i..j] == a[i..i + 1] + a[i + 1..j];
    }
  }

  lemma JoinBold(x: string, y: string, z: string, rest: string)
    ensures "<b>" + x + "" + (y + ("" + z + "</b>" + rest)) == "<b>" + ((x + y + z) + ("</b>" + rest))
  {
    assert "" + z == z && "<b>" + x + "" == "<b>" + x;
    assert y + (z + "</b>" + rest) == y + z + ("</b>" + rest);
    assert "<b>" + x + (y + z + ("</b>" + rest)) == "<b>" + ((x + y + z) + ("</b>" + rest));
  }

  /** A bold stretch of eight characters. */
  lemma BoldPieces(a: string, i: nat)
    requires (i == 2 || i == 34) && i + 8 <= |a|
    ensures Pieces(a, i) == "<b>" + (a[i..i + 8] + ("</b>" + Pieces(a, i + 8)))
  {
    hide Pieces, Before, After;
    BoldEnds(a, i);
    PlainPieces(a, i + 1, i + 7);
    JoinBold(a[i..i + 1], a[i + 1..i + 7], a[i + 7..i + 8], Pieces(a, i + 8));
    Slices(a, i, i + 1, i + 7, i + 8);
  }

  lemma BoldEnds(a: string, i: nat)
    requires (i == 2 || i == 34) && i + 8 <= |a|
    ensures Pieces(a, i) == "<b>" + a[i..i + 1] + "" + Pieces(a, i + 1)
    ensures Pieces(a, i + 7) == "" + a[i + 7..i + 8] + "</b>" + Pieces(a, i + 8)
  {
    OnePiece(a, i);
    OnePiece(a, i + 7);
    hide Pieces;
    assert "" + "<b>" == "<b>";
  }

  lemma Slices(a: string, i: nat, j: nat, k: nat, l: nat)
    requires i <= j <= k <= l <= |a|
    ensures a[i..l] == a[i..j] + a[j..k] + a[k..l]
  {
  }

  lemma JoinBreak(x: string, y: string, rest: string)
    ensures "<wbr>" + x + "" + (y + rest) == "<wbr>" + ((x + y) + rest)
  {
    assert "<wbr>" + x + "" == "<wbr>" + x;
  }

  /** A stretch that may be broken before, up to the next mark. */
  lemma BreakPieces(a: string, i: nat, j: nat)
    requires (i == 10 || i == 20 || i == 30) && i < j <= |a| && Unmarked(i + 1, j)
    ensures Pieces(a, i) == "<wbr>" + (a[i..j] + Pieces(a, j))
  {
    hide Pieces, Before, After;
    BreakEnd(a, i);
    PlainPieces(a, i + 1, j);
    JoinBreak(a[i..i + 1], a[i + 1..j], Pieces(a, j));
    TwoSlices(a, i, i + 1, j);
  }

  lemma BreakEnd(a: string, i: nat)
    requires (i == 10 || i == 20 || i == 30) && i < |a|
    ensures Pieces(a, i) == "<wbr>" + a[i..i + 1] + "" + Pieces(a, i + 1)
  {
    OnePiece(a, i);
    hide Pieces;
    assert "<wbr>" + "" == "<wbr>";
  }

  lemma TwoSlices(a: string, i: nat, j: nat, k: nat)
    requires i <= j <= k <= |a|
    ensures a[i..k] == a[i..j] + a[j..k]
  {
  }

  /** Forty-two characters, marked: bold, breaks, and all. */
  function Marked(a: string): string
    requires |a| == 42
  {
    a[..2] + ("<b>" + (a[2..10] + ("</b>" + MarkedRest(a))))
  }

  function MarkedRest(a: string): string
    requires |a| == 42
  {
    "<wbr>" + (a[10..20] + ("<wbr>" + (a[20..30] + ("<wbr>" + (a[30..34] + ("<b>" + (a[34..42] + ("</b>" + ""))))))))
  }

  lemma PiecesFromTen(a: string)
    requires |a| == 42
    ensures Pieces(a, 10) == MarkedRest(a)
  {
    BreakPieces(a, 10, 20);
    BreakPieces(a, 20, 30);
    BreakPieces(a, 30, 34);
    BoldPieces(a, 34);
    assert Pieces(a, 42) == "";
  }

  /** The whole mark-up of an address, its class and attribute included. */
  lemma AddressIsWritten(a: string)
    requires |a| == 42
    ensures AddressHtml(a) == "<span " + "class=\"q-addr\" translate=\"no\"" + ">" + Marked(a) + "</span>"
  {
    PlainPieces(a, 0, 2);
    BoldPieces(a, 2);
    PiecesFromTen(a);
    hide Pieces, MarkedRest;
    assert a[0..2] == a[..2];
  }

  lemma Regroup(was: string, a: string, c: char, b: string, rest: string)
    ensures was + a + [c] + b + rest == was + (a + [c] + b + rest)
  {
  }

  /** `_address_html`: the loop over the address. */
  method WriteAddress(address: string) returns (html: string)
    ensures html == AddressHtml(address)
  {
    var out := "";
    for i := 0 to |address|
      invariant out + Pieces(address, i) == Pieces(address, 0)
    {
      ghost var was := out;
      if i == 10 || i == 20 || i == 30 {
        out := out + "<wbr>";
      }
      if i == 2 {
        out := out + "<b>";
      }
      if i == 34 {
        out := out + "<b>";
      }
      assert out == was + Before(i);
      out := out + [address[i]];
      ghost var written := out;
      if i == 9 || i == 41 {
        out := out + "</b>";
      }
      assert out == written + After(i);
      Regroup(was, Before(i), address[i], After(i), Pieces(address, i + 1));
    }
    html := SPAN + out + "</span>";
  }

  /** `_ADDRESS.sub`: the leftmost match is replaced, and the search goes on after it. */
  function Mark(s: string): string
    decreases |s|
  {
    if s == "" then ""
    else if AddressAt(s) then AddressHtml(s[..42]) + Mark(s[42..])
    else [s[0]] + Mark(s[1..])
  }

  function DecisionTextHtml(text: Option<string>): string {
    Mark(Escape(if text.Some? then text.value else ""))
  }

  // ---------------------------------------------------------------- reading

  /** A character seen: the elements open around it, outermost first, and whether a line may break before it. */
  datatype Glyph = Glyph(ch: char, within: seq<string>, breakable: bool)

  function Find(s: string, c: char): (r: nat)
    ensures r <= |s| && (r < |s| ==> s[r] == c)
    ensures forall i :: 0 <= i < r ==> s[i] != c
  {
    if s == "" || s[0] == c then 0 else 1 + Find(s[1..], c)
  }

  /** The character reference at the head of a text, and its length. */
  function Reference(s: string): Option<(char, nat)> {
    if "&amp;" <= s then Some(('&', 5))
    else if "&lt;" <= s then Some(('<', 4))
    else if "&gt;" <= s then Some(('>', 4))
    else if "&#39;" <= s then Some(('\'', 5))
    else if "&#34;" <= s then Some(('"', 5))
    else None
  }

  function Prepend(g: seq<Glyph>, rest: Option<seq<Glyph>>): Option<seq<Glyph>> {
    if rest.Some? then Some(g + rest.value) else None
  }

  /** None unless every element opened is closed again, the innermost first, and every `&` begins a reference. */
  function Read(html: string, open: seq<string>, breakable: bool): Option<seq<Glyph>>
    decreases |html|
  {
    if html == "" then
      if open == [] then Some([]) else None
    else if html[0] == '<' then
      var end := Find(html, '>');
      if end == |html| then None
      else
        var tag := html[1..end];
        var rest := html[end + 1..];
        if tag == "wbr" then Read(rest, open, true)
        else if tag != "" && tag[0] == '/' then
          if open != [] && tag[1..] == open[|open| - 1] then Read(rest, open[..|open| - 1], breakable) else None
        else Read(rest, open + [tag[..Find(tag, ' ')]], breakable)
    else if html[0] == '&' then
      var reference := Reference(html);
      if reference.None? || reference.value.1 > |html| then None
      else if reference.value.1 == 0 then None
      else Prepend([Glyph(reference.value.0, open, breakable)], Read(html[reference.value.1..], open, false))
    else Prepend([Glyph(html[0], open, breakable)], Read(html[1..], open, false))
  }

  /** How an address is shown: in one span, its first and last four bytes bold, a break after every ten characters. */
  function AddressLook(address: string): (r: seq<Glyph>)
    ensures |r| == |address|
  {
    seq(|address|, i requires 0 <= i < |address| =>
      Glyph(address[i],
            if 2 <= i < 10 || 34 <= i < 42 then ["span", "b"] else ["span"],
            i == 10 || i == 20 || i == 30))
  }

  /** How the decision's own text is to be seen. */
  function Look(text: string): seq<Glyph>
    decreases |text|
  {
    if text == "" then []
    else if AddressAt(text) then AddressLook(text[..42]) + Look(text[42..])
    else [Glyph(text[0], [], false)] + Look(text[1..])
  }

  function Letters(g: seq<Glyph>): (r: string)
    ensures |r| == |g| && forall i :: 0 <= i < |g| ==> r[i] == g[i].ch
  {
    if g == [] then "" else [g[0].ch] + Letters(g[1..])
  }

  // ---------------------------------------------------------------- reading single marks

  /** A tag whose text holds no '>' is read whole. */
  lemma TagIsRead(tag: string, r: string)
    requires '>' !in tag
    ensures var s := "<" + tag + ">" + r;
      s[0] == '<' && Find(s, '>') == |tag| + 1 && s[1..|tag| + 1] == tag && s[|tag| + 2..] == r
  {
    var s := "<" + tag + ">" + r;
    var end := Find(s, '>');
    assert s[|tag| + 1] == '>';
    assert s[1..|tag| + 1] == tag && s[|tag| + 2..] == r;
    assert forall i :: 1 <= i < |tag| + 1 ==> s[i] == tag[i - 1];
    assert end <= |tag| + 1;
  }

  lemma ReadBreak(r: string, open: seq<string>, breakable: bool)
    ensures Read("<wbr>" + r, open, breakable) == Read(r, open, true)
  {
    assert "<wbr>" == "<" + "wbr" + ">";
    TagIsRead("wbr", r);
  }

  lemma ReadBold(r: string, open: seq<string>, breakable: bool)
    ensures Read("<b>" + r, open, breakable) == Read(r, open + ["b"], breakable)
  {
    assert "<b>" == "<" + "b" + ">";
    TagIsRead("b", r);
    assert "b"[0] == 'b' && Find("b", ' ') == 1;
    assert "b"[..1] == "b";
  }

  lemma ReadUnbold(r: string, open: seq<string>, breakable: bool)
    ensures Read("</b>" + r, open + ["b"], breakable) == Read(r, open, breakable)
  {
    assert "</b>" == "<" + "/b" + ">";
    TagIsRead("/b", r);
    assert "/b"[1..] == "b";
    assert (open + ["b"])[..|open|] == open;
  }

  lemma FindAfter(a: string, c: char, r: string)
    requires c !in a
    ensures Find(a + [c] + r, c) == |a|
  {
    var s := a + [c] + r;
    assert s[|a|] == c;
    assert forall i :: 0 <= i < |a| ==> s[i] == a[i];
  }

  lemma AttributesHoldNoTag()
    ensures '>' !in ATTRIBUTES
  {
  }

  lemma ReadSpan(r: string, open: seq<string>, breakable: bool)
    ensures Read(SPAN + r, open, breakable) == Read(r, open + ["span"], breakable)
  {
    hide ATTRIBUTES;
    var tag := "span" + [' '] + ATTRIBUTES;
    AttributesHoldNoTag();
    TagIsRead(tag, r);
    assert SPAN + r == "<" + tag + ">" + r;
    FindAfter("span", ' ', ATTRIBUTES);
    assert tag[..4] == "span" && tag[0] == 's';
  }

  lemma ReadUnspan(r: string, open: seq<string>, breakable: bool)
    ensures Read("</span>" + r, open + ["span"], breakable) == Read(r, open, breakable)
  {
    assert "</span>" == "<" + "/span" + ">";
    TagIsRead("/span", r);
    assert "/span"[1..] == "span";
    assert (open + ["span"])[..|open|] == open;
  }

  lemma ReadPlain(c: char, r: string, open: seq<string>, breakable: bool)
    requires c != '<' && c != '&'
    ensures Read([c] + r, open, breakable) == Prepend([Glyph(c, open, breakable)], Read(r, open, false))
  {
    assert ([c] + r)[1..] == r;
  }

  lemma ReadEscaped(c: char, r: string, open: seq<string>)
    ensures Read(EscapeChar(c) + r, open, false) == Prepend([Glyph(c, open, false)], Read(r, open, false))
  {
    var s := EscapeChar(c) + r;
    if EscapeChar(c) == [c] {
      ReadPlain(c, r, open, false);
    } else {
      assert EscapeChar(c) <= s;
      assert s[|EscapeChar(c)|..] == r;
      assert s[1] == EscapeChar(c)[1] && s[2] == EscapeChar(c)[2] && s[3] == EscapeChar(c)[3];
      assert Reference(s) == Some((c, |EscapeChar(c)|));
    }
  }

  // ---------------------------------------------------------------- reading an address

  /** The elements open before the pieces of character i. */
  function Inside(i: nat): seq<string> {
    if 2 < i < 10 || 34 < i < 42 then ["span", "b"] else ["span"]
  }

  predicate Plain(s: string) {
    forall c :: c in s ==> c != '<' && c != '&'
  }

  lemma ReadPiece(address: string, i: nat, tail: string)
    requires |address| == 42 && i < 42 && Plain(address)
    ensures Read(Before(i) + ([address[i]] + (After(i) + tail)), Inside(i), false)
         == Prepend([AddressLook(address)[i]], Read(tail, Inside(i + 1), false))
  {
    hide Read, Prepend;
    var c := address[i];
    assert ["span"] + ["b"] == ["span", "b"];
    assert c in address;
    var look := AddressLook(address)[i];
    var rest := [c] + (After(i) + tail);
    assert Read(Before(i) + rest, Inside(i), false) == Read(rest, look.within, look.breakable) by {
      if i == 10 || i == 20 || i == 30 {
        assert Before(i) == "<wbr>";
        ReadBreak(rest, Inside(i), false);
      } else if i == 2 || i == 34 {
        assert Before(i) == "<b>";
        ReadBold(rest, Inside(i), false);
      } else {
        assert Before(i) + rest == rest;
      }
    }
    ReadPlain(c, After(i) + tail, look.within, look.breakable);
    assert Read(After(i) + tail, look.within, false) == Read(tail, Inside(i + 1), false) by {
      if i == 9 || i == 41 {
        ReadUnbold(tail, ["span"], false);
      } else {
        assert After(i) + tail == tail;
      }
    }
  }

  lemma {:induction false} ReadPieces(address: string, i: nat, r: string)
    requires |address| == 42 && i <= 42 && Plain(address)
    ensures Read(Pieces(address, i) + ("</span>" + r), Inside(i), false)
         == Prepend(AddressLook(address)[i..], Read(r, [], false))
    decreases 42 - i
  {
    hide Read, AddressLook;
    if i == 42 {
      assert [] + ["span"] == ["span"];
      ReadUnspan(r, [], false);
      assert Pieces(address, 42) + ("</span>" + r) == "</span>" + r;
      assert AddressLook(address)[42..] == [];
      PrependNothing(Read(r, [], false));
    } else {
      var end := "</span>" + r;
      var tail := Pieces(address, i + 1) + end;
      ReadPieces(address, i + 1, r);
      ReadPiece(address, i, tail);
      RegroupPiece(Before(i), address[i], After(i), Pieces(address, i + 1), end);
      assert [AddressLook(address)[i]] + AddressLook(address)[i + 1..] == AddressLook(address)[i..];
      PrependTwice([AddressLook(address)[i]], AddressLook(address)[i + 1..], Read(r, [], false));
    }
  }

  lemma RegroupPiece(a: string, c: char, b: string, rest: string, end: string)
    ensures (a + [c] + b + rest) + end == a + ([c] + (b + (rest + end)))
  {
  }

  lemma PrependNothing(rest: Option<seq<Glyph>>)
    ensures Prepend([], rest) == rest
  {
    if rest.Some? {
      assert [] + rest.value == rest.value;
    }
  }

  lemma PrependTwice(a: seq<Glyph>, b: seq<Glyph>, rest: Option<seq<Glyph>>)
    ensures Prepend(a, Prepend(b, rest)) == Prepend(a + b, rest)
  {
    if rest.Some? {
      assert a + (b + rest.value) == a + b + rest.value;
    }
  }

  /** An address, marked, reads back as that address: its ends bold, its breaks adding no character. */
  lemma AddressReadsBack(address: string, r: string)
    requires |address| == 42 && Plain(address)
    ensures Read(AddressHtml(address) + r, [], false) == Prepend(AddressLook(address), Read(r, [], false))
  {
    hide Read, AddressLook, Prepend;
    var rest := Pieces(address, 0) + ("</span>" + r);
    assert AddressHtml(address) + r == SPAN + rest;
    ReadSpan(rest, [], false);
    assert [] + ["span"] == ["span"];
    ReadPieces(address, 0, r);
    assert AddressLook(address)[0..] == AddressLook(address);
  }

  // ---------------------------------------------------------------- escaping and addresses

  lemma EscapeUnfolds(text: string)
    requires text != ""
    ensures Escape(text) == EscapeChar(text[0]) + Escape(text[1..])
    ensures |Escape(text)| > 0
  {
  }

  predicate Unescaped(s: string) {
    forall i :: 0 <= i < |s| ==> EscapeChar(s[i]) == [s[i]]
  }

  lemma {:induction false} EscapePlain(s: string, r: string)
    requires Unescaped(s)
    ensures Escape(s + r) == s + Escape(r)
  {
    hide Escape, EscapeChar;
    if s == "" {
      assert s + r == r;
    } else {
      EscapePlain(s[1..], r);
      EscapeUnfolds(s + r);
      assert (s + r)[1..] == s[1..] + r;
      assert [s[0]] + (s[1..] + Escape(r)) == s + Escape(r);
    }
  }

  lemma {:induction false} EscapeKeepsRun(s: string)
    ensures HexRun(Escape(s)) == HexRun(s)
  {
    hide Escape, EscapeChar;
    if s == "" {
      EscapeOfNone();
    } else {
      EscapeKeepsRun(s[1..]);
      EscapeUnfolds(s);
      EscapeHex(s[0]);
      assert Escape(s)[0] == EscapeChar(s[0])[0];
      if IsHex(s[0]) {
        assert Escape(s)[1..] == Escape(s[1..]);
      }
    }
  }

  lemma EscapeHex(c: char)
    ensures EscapeChar(c) != "" && (IsHex(EscapeChar(c)[0]) <==> IsHex(c))
    ensures IsHex(c) ==> EscapeChar(c) == [c]
  {
  }

  /** Escaping neither makes an address nor hides one. */
  lemma EscapeKeepsAddresses(text: string)
    ensures AddressAt(Escape(text)) <==> AddressAt(text)
  {
    hide Escape, HexRun;
    if text == "" {
      EscapeOfNone();
    } else {
      EscapeUnfolds(text);
      EscapeHead(text);
      if |text| >= 2 {
        EscapeUnfolds(text[1..]);
        EscapeHead(text[1..]);
        if text[0] == '0' && text[1] == 'x' {
          assert text == "0x" + text[2..];
          EscapePlain("0x", text[2..]);
          assert Escape(text)[2..] == Escape(text[2..]);
          EscapeKeepsRun(text[2..]);
        } else if text[0] == '0' {
          assert Escape(text)[1] == Escape(text[1..])[0];
        }
      } else if text[0] == '0' {
        EscapeOfNone();
      }
    }
  }

  lemma EscapeOfNone()
    ensures Escape("") == ""
  {
  }

  /** The first character escapes to itself or to a reference. */
  lemma EscapeHead(text: string)
    requires text != ""
    ensures Escape(text)[0] == text[0] || (Escape(text)[0] == '&' && text[0] != '0' && text[0] != 'x')
    ensures text[0] == '0' || text[0] == 'x' ==> EscapeChar(text[0]) == [text[0]]
  {
    hide Escape;
    EscapeUnfolds(text);
  }

  lemma EscapeSplitsAddress(text: string)
    requires AddressAt(text)
    ensures |Escape(text)| >= 42 && Escape(text)[..42] == text[..42] && Escape(text)[42..] == Escape(text[42..])
  {
    hide Escape;
    AddressIsPlain(text);
    assert text == text[..42] + text[42..];
    EscapePlain(text[..42], text[42..]);
  }

  lemma {:induction false} MarkPasses(p: string, r: string)
    requires '0' !in p
    ensures Mark(p + r) == p + Mark(r)
  {
    hide AddressHtml, HexRun;
    if p == "" {
      assert p + r == r;
    } else {
      MarkPasses(p[1..], r);
      assert (p + r)[0] == p[0] && (p + r)[1..] == p[1..] + r;
      assert [p[0]] + (p[1..] + Mark(r)) == p + Mark(r);
    }
  }

  /** The marked-up text, one step on: an address is wrapped whole, any other character is escaped. */
  lemma MarkStep(text: string)
    requires text != ""
    ensures Mark(Escape(text)) ==
      if AddressAt(text) then AddressHtml(text[..42]) + Mark(Escape(text[42..]))
      else EscapeChar(text[0]) + Mark(Escape(text[1..]))
  {
    hide AddressHtml, AddressAt, Escape, Mark, EscapeChar;
    EscapeKeepsAddresses(text);
    EscapeUnfolds(text);
    MarkUnfolds(Escape(text));
    if AddressAt(text) {
      EscapeSplitsAddress(text);
    } else {
      EscapeShape(text[0]);
      if EscapeChar(text[0]) == [text[0]] {
        assert Escape(text)[0] == text[0] && Escape(text)[1..] == Escape(text[1..]);
      } else {
        MarkPasses(EscapeChar(text[0]), Escape(text[1..]));
      }
    }
  }

  lemma EscapeShape(c: char)
    ensures EscapeChar(c) == [c] || '0' !in EscapeChar(c)
  {
  }

  lemma MarkUnfolds(s: string)
    requires s != ""
    ensures AddressAt(s) ==> |s| >= 42 && Mark(s) == AddressHtml(s[..42]) + Mark(s[42..])
    ensures !AddressAt(s) ==> Mark(s) == [s[0]] + Mark(s[1..])
  {
  }

  lemma AddressIsPlain(text: string)
    requires AddressAt(text)
    ensures |text| >= 42 && Plain(text[..42]) && Unescaped(text[..42])
  {
    assert forall i :: 2 <= i < 42 ==> text[i] == text[2..][i - 2];
  }

  // ---------------------------------------------------------------- the whole text

  /**
   * For every text the HTML is well nested, and what is seen is the text, character for character, its
   * addresses and nothing else in spans.
   */
  lemma {:induction false} SeenAsWritten(text: string)
    ensures Read(Mark(Escape(text)), [], false) == Some(Look(text))
    decreases |text|
  {
    hide AddressAt, AddressLook, Escape, AddressHtml, Mark;
    if text == "" {
      MarkOfNone();
    } else {
      MarkStep(text);
      hide Read;
      if AddressAt(text) {
        AddressIsPlain(text);
        SeenAsWritten(text[42..]);
        AddressReadsBack(text[..42], Mark(Escape(text[42..])));
      } else {
        SeenAsWritten(text[1..]);
        ReadEscaped(text[0], Mark(Escape(text[1..])), []);
      }
    }
  }

  lemma MarkOfNone()
    ensures Mark(Escape("")) == ""
  {
  }

  lemma {:induction false} LookKeepsText(text: string)
    ensures Letters(Look(text)) == text
    decreases |text|
  {
    if text == "" {
    } else if AddressAt(text) {
      LookKeepsText(text[42..]);
      SameLetters(AddressLook(text[..42]) + Look(text[42..]), text[..42] + Letters(Look(text[42..])));
      assert text[..42] + text[42..] == text;
    } else {
      LookKeepsText(text[1..]);
      SameLetters([Glyph(text[0], [], false)] + Look(text[1..]), [text[0]] + Letters(Look(text[1..])));
      assert [text[0]] + text[1..] == text;
    }
  }

  lemma SameLetters(g: seq<Glyph>, s: string)
    requires |g| == |s| && forall i :: 0 <= i < |g| ==> g[i].ch == s[i]
    ensures Letters(g) == s
  {
  }

  /** What is read is the decision text exactly. */
  lemma DecisionTextReadsBack(text: Option<string>)
    ensures var seen := Read(DecisionTextHtml(text), [], false);
      seen.Some? && Letters(seen.value) == if text.Some? then text.value else ""
  {
    var plain := if text.Some? then text.value else "";
    SeenAsWritten(plain);
    LookKeepsText(plain);
  }

  // ---------------------------------------------------------------- which addresses are marked

  /** The search wraps the address that begins at j. */
  predicate WrappedAt(text: string, j: nat)
    decreases |text|
  {
    if text == "" then false
    else if AddressAt(text) then j == 0 || (j >= 42 && WrappedAt(text[42..], j - 42))
    else j >= 1 && WrappedAt(text[1..], j - 1)
  }

  lemma LookUnfolds(text: string)
    requires text != ""
    ensures |Look(text)| == |text|
    ensures AddressAt(text) ==> |text| >= 42 && Look(text) == AddressLook(text[..42]) + Look(text[42..])
    ensures !AddressAt(text) ==> Look(text) == [Glyph(text[0], [], false)] + Look(text[1..])
  {
    LookKeepsText(text);
  }

  /** A wrapped address is seen as one. */
  lemma {:induction false} WrappedLook(text: string, j: nat)
    requires WrappedAt(text, j)
    ensures |Look(text)| == |text| && j + 42 <= |text|
    ensures Look(text)[j..j + 42] == AddressLook(text[j..j + 42])
    decreases |text|
  {
    hide AddressLook, AddressAt, Look;
    LookUnfolds(text);
    if AddressAt(text) {
      if j == 0 {
        assert Look(text)[..42] == AddressLook(text[..42]);
      } else {
        WrappedLook(text[42..], j - 42);
        Shifted(AddressLook(text[..42]), Look(text[42..]), text, 42, j);
      }
    } else {
      WrappedLook(text[1..], j - 1);
      Shifted([Glyph(text[0], [], false)], Look(text[1..]), text, 1, j);
    }
  }

  lemma Shifted(a: seq<Glyph>, b: seq<Glyph>, text: string, k: nat, j: nat)
    requires |a| == k <= j && |a| + |b| == |text| && j + 42 <= |text|
    ensures (a + b)[j..j + 42] == b[j - k..j - k + 42]
    ensures text[k..][j - k..j - k + 42] == text[j..j + 42]
  {
  }

  predicate InWrapped(text: string, i: nat) {
    exists j: nat :: j <= i < j + 42 && WrappedAt(text, j)
  }

  lemma InWrappedLater(text: string, k: nat, i: nat)
    requires k <= |text| && InWrapped(text[k..], i)
    requires forall j: nat :: WrappedAt(text[k..], j) ==> WrappedAt(text, j + k)
    ensures InWrapped(text, i + k)
  {
    var j: nat :| j <= i < j + 42 && WrappedAt(text[k..], j);
    assert WrappedAt(text, j + k);
  }

  /** A character in no wrapped address is seen bare. */
  lemma {:induction false} BareLook(text: string, i: nat)
    requires i < |text|
    ensures |Look(text)| == |text|
    ensures Look(text)[i] == Glyph(text[i], [], false) || InWrapped(text, i)
    decreases |text|
  {
    hide AddressLook, AddressAt, Look, InWrapped;
    LookUnfolds(text);
    if AddressAt(text) {
      if i < 42 {
        InFirst(text, i);
      } else {
        BareLook(text[42..], i - 42);
        if InWrapped(text[42..], i - 42) {
          InWrappedLater(text, 42, i - 42);
        }
      }
    } else if i > 0 {
      BareLook(text[1..], i - 1);
      if InWrapped(text[1..], i - 1) {
        InWrappedLater(text, 1, i - 1);
      }
    }
  }

  lemma InFirst(text: string, i: nat)
    requires AddressAt(text) && i < 42
    ensures InWrapped(text, i)
  {
    assert WrappedAt(text, 0);
  }

  /**
   * An address in the text is wrapped unless a wrapped one begins 41 characters before it: two can
   * share only the last digit of the first, when that is the `0` of the second.
   */
  lemma {:induction false} WrappedExactly(text: string, j: nat)
    requires j <= |text|
    ensures WrappedAt(text, j) <==> AddressAt(text[j..]) && !(j >= 41 && WrappedAt(text, j - 41))
    decreases |text|
  {
    hide AddressAt;
    if text == "" {
      NoAddressInNothing();
    } else if AddressAt(text) {
      AddressIsPlain(text);
      if j >= 42 {
        WrappedExactly(text[42..], j - 42);
        assert text[42..][j - 42..] == text[j..];
      } else if 0 < j < 41 {
        NoneInside(text, j);
      } else if j == 0 {
        assert text[0..] == text;
      }
    } else if j == 0 {
      assert text[0..] == text;
    } else {
      WrappedExactly(text[1..], j - 1);
      assert text[1..][j - 1..] == text[j..];
    }
  }

  /** How many addresses stand before this one at steps of 41 characters, each sharing a digit with the next. */
  function Chain(text: string, j: nat): nat
    requires j <= |text|
  {
    if j >= 41 && AddressAt(text[j - 41..]) then 1 + Chain(text, j - 41) else 0
  }

  /** In terms of the text alone: of addresses that overlap in a chain every other one is wrapped, the first included. */
  lemma {:induction false} WrappedByChain(text: string, j: nat)
    requires j <= |text|
    ensures WrappedAt(text, j) <==> AddressAt(text[j..]) && Chain(text, j) % 2 == 0
  {
    hide AddressAt, WrappedAt;
    WrappedExactly(text, j);
    if j >= 41 {
      WrappedByChain(text, j - 41);
    }
  }

  lemma NoAddressInNothing()
    ensures !AddressAt("")
  {
  }

  lemma NoneInside(text: string, j: nat)
    requires AddressAt(text) && 0 < j < 41
    ensures !AddressAt(text[j..])
  {
    if |text[j..]| >= 2 {
      assert text[j..][1] == text[j + 1] == text[2..][j - 1];
    }
  }

  /** One that is not wrapped: `0x`, thirty-nine digits, and then a second address. */
  lemma OverlappingAddressIsBare()
    ensures var text := "0x" + seq(39, _ => 'a') + "0x" + seq(40, _ => 'a');
      AddressAt(text[41..]) && !WrappedAt(text, 41)
  {
    var text := "0x" + seq(39, _ => 'a') + "0x" + seq(40, _ => 'a');
    var rest := text[41..][2..];
    assert |rest| == 40 && forall i :: 0 <= i < 40 ==> rest[i] == 'a';
    RunOfForty(rest);
    var first := text[2..];
    assert forall i :: 0 <= i < 39 ==> first[i] == 'a';
    assert first[39] == '0' && first[40] == 'x';
    RunOfForty(first);
    assert text[0..] == text;
    WrappedExactly(text, 0);
    WrappedExactly(text, 41);
  }

  lemma RunOfForty(s: string)
    ensures HexRun(s) == 40 <==> |s| >= 40 && (forall i :: 0 <= i < 40 ==> IsHex(s[i])) && (|s| > 40 ==> !IsHex(s[40]))
  {
  }
}
