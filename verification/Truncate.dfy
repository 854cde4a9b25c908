/** Output truncation (src/utils/truncate.ts): line cap, then byte cap over UTF-8. Strings are sequences of
    Unicode scalar values, that is, well-formed text. */
module Truncate {
  import opened Common

  function Lines(s: string): seq<string> {
    Split(s, '\n')
  }

  // ---- UTF-8: RFC 3629, section 3, and the decoder of the WHATWG Encoding Standard, section 8.1.1 ----

  const REPLACEMENT: char := '\U{FFFD}'

  function EncodeChar(c: char): (bs: seq<Byte>)
    ensures 1 <= |bs| <= 4
  {
    var p := c as int;
    if p < 0x80 then [p as Byte]
    else if p < 0x800 then [(0xC0 + p / 64) as Byte, Continuation(p)]
    else if p < 0x1_0000 then [(0xE0 + p / 4096) as Byte, Continuation(p / 64), Continuation(p)]
    else [(0xF0 + p / 262144) as Byte, Continuation(p / 4096), Continuation(p / 64), Continuation(p)]
  }

  function Continuation(p: nat): (b: Byte)
    ensures 0x80 <= b <= 0xBF && b as int % 64 == p % 64
  {
    (0x80 + p % 64) as Byte
  }

  function Encode(s: string): seq<Byte> {
    if s == "" then [] else EncodeChar(s[0]) + Encode(s[1..])
  }

  function ByteLength(s: string): nat {
    |Encode(s)|
  }

  /** Bytes still needed, the value so far, and the range the next byte must lie in. */
  datatype Decoder = Decoder(needed: nat, point: nat, lower: Byte, upper: Byte)

  const READY := Decoder(0, 0, 0x80, 0xBF)

  function Scalar(p: nat): char {
    if p < 0xD800 || 0xE000 <= p < 0x11_0000 then p as char else REPLACEMENT
  }

  function Decode(bs: seq<Byte>, d: Decoder): string
    decreases |bs|, d.needed
  {
    if bs == [] then (if d.needed == 0 then "" else [REPLACEMENT])
    else
      var b, rest := bs[0], bs[1..];
      if d.needed == 0 then
        if b <= 0x7F then [b as int as char] + Decode(rest, READY)
        else if 0xC2 <= b <= 0xDF then Decode(rest, Decoder(1, b as int - 0xC0, 0x80, 0xBF))
        else if 0xE0 <= b <= 0xEF then
          Decode(rest, Decoder(2, b as int - 0xE0, if b == 0xE0 then 0xA0 else 0x80, if b == 0xED then 0x9F else 0xBF))
        else if 0xF0 <= b <= 0xF4 then
          Decode(rest, Decoder(3, b as int - 0xF0, if b == 0xF0 then 0x90 else 0x80, if b == 0xF4 then 0x8F else 0xBF))
        else [REPLACEMENT] + Decode(rest, READY)
      else if !(d.lower <= b <= d.upper) then [REPLACEMENT] + Decode(bs, READY)
      else
        var point := d.point * 64 + b as int % 64;
        if d.needed == 1 then [Scalar(point)] + Decode(rest, READY)
        else Decode(rest, Decoder(d.needed - 1, point, 0x80, 0xBF))
  }

  // ---- truncate ----

  datatype Truncated = Truncated(content: string, truncated: bool, totalLines: nat, totalBytes: nat)

  function Head(input: string, maxLines: nat): string {
    var all := Lines(input);
    Join(all[..if maxLines <= |all| then maxLines else |all|], '\n')
  }

  function Truncate(input: string, maxBytes: nat, maxLines: nat): Truncated {
    var totalBytes := ByteLength(input);
    var totalLines := |Lines(input)|;
    if totalBytes <= maxBytes && totalLines <= maxLines then Truncated(input, false, totalLines, totalBytes)
    else
      var head := Head(input, maxLines);
      var content := if ByteLength(head) > maxBytes then Decode(Encode(head)[..maxBytes], READY) else head;
      Truncated(content, true, totalLines, totalBytes)
  }

  // ---- decoding what was encoded ----

  lemma NextByte(d: Decoder, q: nat, rest: seq<Byte>)
    requires d.needed > 0 && d.lower <= Continuation(q) <= d.upper
    ensures Decode([Continuation(q)] + rest, d)
            == if d.needed == 1 then [Scalar(d.point * 64 + q % 64)] + Decode(rest, READY)
               else Decode(rest, Decoder(d.needed - 1, d.point * 64 + q % 64, 0x80, 0xBF))
  {
    var bs := [Continuation(q)] + rest;
    hide Continuation;
    assert bs[0] == Continuation(q) && bs[1..] == rest;
  }

  /** The decoder's state after the first byte of a longer character. */
  function AfterLead(c: char): Decoder
    requires c as int >= 0x80
  {
    var p := c as int;
    if p < 0x800 then Decoder(1, p / 64, 0x80, 0xBF)
    else if p < 0x1_0000 then
      Decoder(2, p / 4096, if p / 4096 == 0 then 0xA0 else 0x80, if p / 4096 == 0xD then 0x9F else 0xBF)
    else Decoder(3, p / 262144, if p / 262144 == 0 then 0x90 else 0x80, if p / 262144 == 4 then 0x8F else 0xBF)
  }

  lemma LeadByte(c: char, rest: seq<Byte>)
    requires c as int >= 0x80
    ensures Decode([EncodeChar(c)[0]] + rest, READY) == Decode(rest, AfterLead(c))
  {
    var bs := [EncodeChar(c)[0]] + rest;
    assert bs[1..] == rest && bs[0] == EncodeChar(c)[0];
  }

  /** Reading six bits at a time rebuilds the value. */
  lemma SixBitsAtATime(p: nat)
    ensures p / 64 * 64 + p % 64 == p
    ensures p / 4096 * 64 + p / 64 % 64 == p / 64
    ensures p / 262144 * 64 + p / 4096 % 64 == p / 4096
  {
    assert p / 64 / 64 == p / 4096 && p / 4096 / 64 == p / 262144;
  }

  /** The byte after the first one is in the range the first one allows: no overlong form, surrogate or
      value beyond the last scalar is ever written. */
  lemma SecondByteInRange(c: char)
    requires c as int >= 0x80
    ensures var p := c as int;
      var q := if p < 0x800 then p else if p < 0x1_0000 then p / 64 else p / 4096;
      AfterLead(c).lower <= Continuation(q) <= AfterLead(c).upper
  {
    var p := c as int;
    SixBitsAtATime(p);
  }

  lemma TwoBytes(c: char, tail: seq<Byte>)
    requires 0x80 <= c as int < 0x800
    ensures Decode(EncodeChar(c) + tail, READY) == [c] + Decode(tail, READY)
  {
    hide Decode, Continuation;
    var p := c as int;
    SixBitsAtATime(p);
    SecondByteInRange(c);
    LeadByte(c, [Continuation(p)] + tail);
    NextByte(AfterLead(c), p, tail);
    assert EncodeChar(c) + tail == [EncodeChar(c)[0]] + ([Continuation(p)] + tail);
  }

  lemma ThreeBytes(c: char, tail: seq<Byte>)
    requires 0x800 <= c as int < 0x1_0000
    ensures Decode(EncodeChar(c) + tail, READY) == [c] + Decode(tail, READY)
  {
    hide Decode, Continuation;
    var p := c as int;
    SixBitsAtATime(p);
    SecondByteInRange(c);
    var last := [Continuation(p)] + tail;
    LeadByte(c, [Continuation(p / 64)] + last);
    NextByte(AfterLead(c), p / 64, last);
    NextByte(Decoder(1, p / 64, 0x80, 0xBF), p, tail);
    assert EncodeChar(c) + tail == [EncodeChar(c)[0]] + ([Continuation(p / 64)] + last);
  }

  lemma FourBytes(c: char, tail: seq<Byte>)
    requires 0x1_0000 <= c as int
    ensures Decode(EncodeChar(c) + tail, READY) == [c] + Decode(tail, READY)
  {
    hide Decode, Continuation;
    var p := c as int;
    SixBitsAtATime(p);
    SecondByteInRange(c);
    var last := [Continuation(p)] + tail;
    var third := [Continuation(p / 64)] + last;
    LeadByte(c, [Continuation(p / 4096)] + third);
    NextByte(AfterLead(c), p / 4096, third);
    NextByte(Decoder(2, p / 4096, 0x80, 0xBF), p / 64, last);
    NextByte(Decoder(1, p / 64, 0x80, 0xBF), p, tail);
    assert EncodeChar(c) + tail == [EncodeChar(c)[0]] + ([Continuation(p / 4096)] + third);
  }

  lemma CharRoundTrips(c: char, tail: seq<Byte>)
    ensures Decode(EncodeChar(c) + tail, READY) == [c] + Decode(tail, READY)
  {
    var p := c as int;
    if p < 0x80 {
      var bs := EncodeChar(c) + tail;
      assert bs[1..] == tail && bs[0] == p as Byte;
    } else if p < 0x800 {
      TwoBytes(c, tail);
    } else if p < 0x1_0000 {
      ThreeBytes(c, tail);
    } else {
      FourBytes(c, tail);
    }
  }

  lemma {:induction false} EncodingRoundTrips(s: string)
    ensures Decode(Encode(s), READY) == s
  {
    if s != "" {
      CharRoundTrips(s[0], Encode(s[1..]));
      EncodingRoundTrips(s[1..]);
      assert s == [s[0]] + s[1..];
    }
  }

  /** Any proper nonempty part of a character decodes to one replacement character. */
  lemma CutCharacterBecomesOneReplacement(c: char, j: nat)
    requires 0 < j < |EncodeChar(c)|
    ensures Decode(EncodeChar(c)[..j], READY) == [REPLACEMENT]
  {
    var p := c as int;
    var bs := EncodeChar(c);
    hide Decode, Continuation;
    SixBitsAtATime(p);
    SecondByteInRange(c);
    LeadByte(c, bs[1..j]);
    assert bs[..j] == [bs[0]] + bs[1..j];
    if j == 1 {
      CutInside(AfterLead(c));
    } else {
      var q := if p < 0x1_0000 then p / 64 else p / 4096;
      var after := Decoder(AfterLead(c).needed - 1, q, 0x80, 0xBF);
      assert bs[1..j] == [Continuation(q)] + bs[2..j];
      NextByte(AfterLead(c), q, bs[2..j]);
      if j == 2 {
        CutInside(after);
      } else {
        assert bs[2..j] == [Continuation(p / 64)] + [];
        NextByte(after, p / 64, []);
        CutInside(Decoder(1, p / 64, 0x80, 0xBF));
      }
    }
  }

  lemma CutInside(d: Decoder)
    requires d.needed > 0
    ensures Decode([], d) == [REPLACEMENT]
  {
  }

  /** How many whole characters fit in `n` bytes. */
  function Fitting(s: string, n: nat): (k: nat)
    ensures k <= |s|
  {
    if s == "" || |EncodeChar(s[0])| > n then 0 else 1 + Fitting(s[1..], n - |EncodeChar(s[0])|)
  }

  lemma {:induction false} EncodeAppends(s: string, t: string)
    ensures Encode(s + t) == Encode(s) + Encode(t)
  {
    if s == "" {
      assert s + t == t;
    } else {
      assert (s + t)[1..] == s[1..] + t;
      EncodeAppends(s[1..], t);
    }
  }

  /** Cutting the bytes of `s` at `n` and decoding keeps the whole characters that fit, and marks a cut
      character by one replacement character. */
  lemma {:induction false} CutDecodes(s: string, n: nat)
    requires n < ByteLength(s)
    ensures var k := Fitting(s, n);
      && k < |s|
      && ByteLength(s[..k]) <= n < ByteLength(s[..k + 1])
      && Decode(Encode(s)[..n], READY) == s[..k] + if ByteLength(s[..k]) == n then "" else [REPLACEMENT]
  {
    hide Decode, EncodeChar;
    var c, t := s[0], s[1..];
    var m := |EncodeChar(c)|;
    FirstCharacter(s);
    if m > n {
      assert s[..0] == "" && s[..1] == [c];
      assert Encode(s)[..n] == EncodeChar(c)[..n];
      if n > 0 {
        CutCharacterBecomesOneReplacement(c, n);
      } else {
        NothingDecodes();
      }
    } else {
      CutDecodes(t, n - m);
      var k := Fitting(t, n - m);
      assert Encode(s)[..n] == EncodeChar(c) + Encode(t)[..n - m];
      CharRoundTrips(c, Encode(t)[..n - m]);
      assert s[..k + 1] == [c] + t[..k] && s[..k + 2] == [c] + t[..k + 1];
      FirstCharacter(s[..k + 1]);
      FirstCharacter(s[..k + 2]);
    }
  }

  lemma FirstCharacter(s: string)
    requires s != ""
    ensures Encode(s) == EncodeChar(s[0]) + Encode(s[1..])
    ensures Encode([s[0]]) == EncodeChar(s[0])
  {
    assert [s[0]][1..] == "" && EncodeChar(s[0]) + [] == EncodeChar(s[0]);
  }

  lemma NothingDecodes()
    ensures Decode([], READY) == ""
  {
  }

  // ---- lines and prefixes ----

  /** The first `n` lines are the start of the text, and have exactly `n` lines (one, if n is 0). */
  lemma {:induction false} HeadIsPrefix(s: string, n: nat)
    requires n <= |Lines(s)|
    ensures Join(Lines(s)[..n], '\n') <= s
    ensures |Lines(Join(Lines(s)[..n], '\n'))| == if n == 0 then 1 else n
  {
    if s != "" && n > 0 {
      var ls, rest := Lines(s), Lines(s[1..]);
      if s[0] == '\n' {
        HeadIsPrefix(s[1..], n - 1);
        HeadAfterNewline(rest, n);
        assert ls == [""] + rest;
        if n > 1 {
          LinesOfCons('\n', Join(rest[..n - 1], '\n'));
        }
      } else {
        HeadIsPrefix(s[1..], n);
        HeadAfterOther(s[0], rest, n);
        LinesOfCons(s[0], Join(rest[..n], '\n'));
      }
      assert s == [s[0]] + s[1..];
    } else if n > 0 {
      assert Lines(s)[..n] == [""];
    }
  }

  lemma LinesOfCons(c: char, t: string)
    ensures |Lines([c] + t)| == |Lines(t)| + if c == '\n' then 1 else 0
  {
    assert ([c] + t)[1..] == t;
  }

  lemma HeadAfterNewline(rest: seq<string>, n: nat)
    requires 1 <= n <= |rest| + 1
    ensures Join(([""] + rest)[..n], '\n') == if n == 1 then "" else "\n" + Join(rest[..n - 1], '\n')
  {
    var head := ([""] + rest)[..n];
    assert head[0] == "" && head[1..] == rest[..n - 1];
    assert "" + "\n" + Join(rest[..n - 1], '\n') == "\n" + Join(rest[..n - 1], '\n');
  }

  lemma HeadAfterOther(c: char, rest: seq<string>, n: nat)
    requires 1 <= n <= |rest|
    ensures Join(([[c] + rest[0]] + rest[1..])[..n], '\n') == [c] + Join(rest[..n], '\n')
  {
    var head := ([[c] + rest[0]] + rest[1..])[..n];
    assert head[0] == [c] + rest[0] && head[1..] == rest[..n][1..] && rest[..n][0] == rest[0];
    if n > 1 {
      assert [c] + rest[0] + "\n" + Join(head[1..], '\n') == [c] + (rest[0] + "\n" + Join(head[1..], '\n'));
    }
  }

  lemma {:induction false} CutHasNoMoreLines(s: string, k: nat, mark: string)
    requires k <= |s| && (mark == "" || mark == [REPLACEMENT])
    ensures |Lines(s[..k] + mark)| <= |Lines(s)|
  {
    var t := s[..k] + mark;
    if k == 0 {
      assert t == mark;
      SplitWithoutSeparator(mark, '\n');
    } else {
      CutHasNoMoreLines(s[1..], k - 1, mark);
      assert t[1..] == s[1..][..k - 1] + mark && t[0] == s[0];
    }
  }

  // ---- the main results ----

  /** `content` is the first `k` characters of `head`, the most that fit, and one replacement character
      exactly when a character was cut. */
  ghost predicate KeepsMostOf(content: string, head: string, maxBytes: nat, k: nat) {
    && k <= |head|
    && ByteLength(head[..k]) <= maxBytes
    && (k < |head| ==> ByteLength(head[..k + 1]) > maxBytes)
    && content == head[..k] + if k < |head| && ByteLength(head[..k]) < maxBytes then [REPLACEMENT] else ""
  }

  /** The head is the first `maxLines` lines, all of the text if it has no more, and ends where a line does. */
  lemma HeadIsTheFirstLines(input: string, maxLines: nat)
    requires maxLines >= 1
    ensures var head := Head(input, maxLines);
      && head <= input
      && |Lines(head)| == (if |Lines(input)| <= maxLines then |Lines(input)| else maxLines)
      && (|Lines(input)| <= maxLines ==> head == input)
      && (|Lines(input)| > maxLines ==> |head| < |input| && input[|head|] == '\n')
  {
    var n := if maxLines <= |Lines(input)| then maxLines else |Lines(input)|;
    HeadIsPrefix(input, n);
    if |Lines(input)| <= maxLines {
      assert Lines(input)[..n] == Lines(input);
      JoinSplit(input, '\n');
    } else {
      HeadEndsALine(input, n);
    }
  }

  lemma {:induction false} HeadEndsALine(s: string, n: nat)
    requires 1 <= n < |Lines(s)|
    ensures var head := Join(Lines(s)[..n], '\n'); head + "\n" <= s
  {
    if s != "" {
      var rest := Lines(s[1..]);
      if s[0] == '\n' {
        HeadAfterNewline(rest, n);
        assert Lines(s) == [""] + rest;
        if n > 1 {
          HeadEndsALine(s[1..], n - 1);
        }
      } else {
        HeadEndsALine(s[1..], n);
        HeadAfterOther(s[0], rest, n);
      }
      assert s == [s[0]] + s[1..];
    }
  }

  /** The text is returned unchanged exactly when both caps hold; otherwise as much of the first `maxLines`
      lines as fits in `maxBytes` bytes. */
  lemma TruncatedIsLongestPrefix(input: string, maxBytes: nat, maxLines: nat)
    ensures var r := Truncate(input, maxBytes, maxLines);
      var head := Head(input, maxLines);
      && r.totalBytes == ByteLength(input) && r.totalLines == |Lines(input)|
      && (r.truncated <==> ByteLength(input) > maxBytes || |Lines(input)| > maxLines)
      && head <= input
      && if r.truncated then exists k: nat :: KeepsMostOf(r.content, head, maxBytes, k) else r.content == input
  {
    var r, head := Truncate(input, maxBytes, maxLines), Head(input, maxLines);
    HeadIsPrefix(input, if maxLines <= |Lines(input)| then maxLines else |Lines(input)|);
    if r.truncated {
      var k := |head|;
      if ByteLength(head) > maxBytes {
        CutDecodes(head, maxBytes);
        k := Fitting(head, maxBytes);
      } else {
        assert head[..k] == head && head[..k] + "" == head;
      }
      assert KeepsMostOf(r.content, head, maxBytes, k);
    }
  }

  /** The caps as they hold of the result: lines exactly, bytes up to two more than asked. */
  lemma TruncatedWithinCaps(input: string, maxBytes: nat, maxLines: nat)
    requires maxLines >= 1
    ensures |Lines(Truncate(input, maxBytes, maxLines).content)| <= maxLines
    ensures ByteLength(Truncate(input, maxBytes, maxLines).content) <= maxBytes + 2
  {
    var r := Truncate(input, maxBytes, maxLines);
    if r.truncated {
      var head := Head(input, maxLines);
      var n := if maxLines <= |Lines(input)| then maxLines else |Lines(input)|;
      HeadIsPrefix(input, n);
      if ByteLength(head) > maxBytes {
        CutDecodes(head, maxBytes);
        var k := Fitting(head, maxBytes);
        var mark := if ByteLength(head[..k]) == maxBytes then "" else [REPLACEMENT];
        CutHasNoMoreLines(head, k, mark);
        EncodeAppends(head[..k], mark);
        assert mark != "" ==> mark[1..] == "" && Encode(mark) == EncodeChar(REPLACEMENT) + [];
      }
    }
  }

  /** The two extra bytes are reached, for every cap of at least one byte. */
  lemma ByteBoundIsReached(maxBytes: nat)
    requires maxBytes >= 1
    ensures exists input :: ByteLength(Truncate(input, maxBytes, 1).content) == maxBytes + 2
  {
    var big: char := '\U{1F600}';
    var filler := seq(maxBytes - 1, _ => 'a');
    var input := filler + [big];
    Filler(maxBytes - 1);
    EncodeAppends(filler, [big]);
    assert Encode([big]) == EncodeChar(big) + [];
    SplitWithoutSeparator(input, '\n');
    assert Lines(input)[..1] == [input];
    assert Head(input, 1) == input;
    CutAfterFiller(maxBytes, big);
    var r := Truncate(input, maxBytes, 1);
    assert r.content == filler + [REPLACEMENT];
    EncodeAppends(filler, [REPLACEMENT]);
    assert Encode([REPLACEMENT]) == EncodeChar(REPLACEMENT) + [];
  }

  lemma CutAfterFiller(n: nat, big: char)
    requires n >= 1 && |EncodeChar(big)| > 1
    ensures n < ByteLength(seq(n - 1, _ => 'a') + [big])
    ensures var filler := seq(n - 1, _ => 'a');
      Decode(Encode(filler + [big])[..n], READY) == filler + [REPLACEMENT]
  {
    hide Decode;
    var filler := seq(n - 1, _ => 'a');
    var input := filler + [big];
    Filler(n - 1);
    EncodeAppends(filler, [big]);
    assert Encode([big]) == EncodeChar(big) + [];
    CutDecodes(input, n);
    var k := Fitting(input, n);
    assert input[..n - 1] == filler && input[..n] == input;
    if k < n - 1 {
      assert input[..k + 1] == seq(k + 1, _ => 'a');
      Filler(k + 1);
    }
  }

  lemma {:induction false} Filler(n: nat)
    ensures ByteLength(seq(n, _ => 'a')) == n
  {
    if n > 0 {
      Filler(n - 1);
      assert seq(n, _ => 'a')[1..] == seq(n - 1, _ => 'a');
    }
  }
}
