/** Base64 with the standard alphabet and '=' padding (section 4 of RFC 4648), as .NET's
    Convert.ToBase64String writes it and Convert.FromBase64String reads it: the reader skips
    spaces, tabs and line breaks, needs a multiple of four characters, accepts padding only
    in the last group, and ignores the unused low bits of a padded group. */
module Base64 {
  import opened Wrappers
  import opened Bytes

  // =======================================================================================
  // The alphabet

  /** The value of a character of the alphabet (Table 1 of RFC 4648), None for any other. */
  function CharValue(c: char): (v: Option<nat>)
    ensures v.Some? ==> v.value < 64
  {
    if 'A' <= c <= 'Z' then Some(c as int - 'A' as int)
    else if 'a' <= c <= 'z' then Some(c as int - 'a' as int + 26)
    else if '0' <= c <= '9' then Some(c as int - '0' as int + 52)
    else if c == '+' then Some(62)
    else if c == '/' then Some(63)
    else None
  }

  /** The character for a 6-bit value. */
  function EncodeChar(v: nat): (c: char)
    requires v < 64
    ensures CharValue(c) == Some(v)
  {
    if v < 26 then ('A' as int + v) as char
    else if v < 52 then ('a' as int + (v - 26)) as char
    else if v < 62 then ('0' as int + (v - 52)) as char
    else if v == 62 then '+'
    else '/'
  }

  /** Every character of the alphabet is the encoding of its own value. */
  lemma CharValueInverse(c: char)
    requires CharValue(c).Some?
    ensures EncodeChar(CharValue(c).value) == c
  {
  }

  // =======================================================================================
  // Encoding

  /** Three bytes, 24 bits, as four 6-bit characters, most significant bits first. */
  function EncodeBlock(b0: byte, b1: byte, b2: byte): (s: string)
  {
    [EncodeChar(b0 / 4), EncodeChar((b0 % 4) * 16 + b1 / 16),
     EncodeChar((b1 % 16) * 4 + b2 / 64), EncodeChar(b2 % 64)]
  }

  /** One trailing byte: two characters and two '='. */
  function EncodeOne(b0: byte): (s: string)
  {
    [EncodeChar(b0 / 4), EncodeChar((b0 % 4) * 16), '=', '=']
  }

  /** Two trailing bytes: three characters and one '='. */
  function EncodeTwo(b0: byte, b1: byte): (s: string)
  {
    [EncodeChar(b0 / 4), EncodeChar((b0 % 4) * 16 + b1 / 16), EncodeChar((b1 % 16) * 4), '=']
  }

  /** Convert.ToBase64String: full blocks, then one or two trailing bytes padded with '='. */
  function Encode(b: seq<byte>): (s: string)
    ensures |s| % 4 == 0
    decreases |b|
  {
    if |b| == 0 then []
    else if |b| == 1 then EncodeOne(b[0])
    else if |b| == 2 then EncodeTwo(b[0], b[1])
    else EncodeBlock(b[0], b[1], b[2]) + Encode(b[3..])
  }

  // =======================================================================================
  // Decoding

  /** The characters FromBase64String skips. */
  predicate IsWhiteSpace(c: char)
  {
    c == ' ' || c == '\t' || c == '\r' || c == '\n'
  }

  function StripWhiteSpace(s: string): (t: string)
    ensures |t| <= |s|
    ensures forall i :: 0 <= i < |t| ==> !IsWhiteSpace(t[i])
    decreases |s|
  {
    if s == [] then []
    else (if IsWhiteSpace(s[0]) then [] else [s[0]]) + StripWhiteSpace(s[1..])
  }

  /** A group of four characters: four alphabet characters give three bytes; in the last group
      "xxx=" gives two bytes and "xx==" one. The bits below the last whole byte are dropped. */
  function DecodeGroup(c0: char, c1: char, c2: char, c3: char, last: bool): (r: Option<seq<byte>>)
    ensures r.Some? ==> 1 <= |r.value| <= 3 && (|r.value| < 3 ==> last)
  {
    match (CharValue(c0), CharValue(c1), CharValue(c2), CharValue(c3))
    case (Some(v0), Some(v1), Some(v2), Some(v3)) =>
      Some([v0 * 4 + v1 / 16, (v1 % 16) * 16 + v2 / 4, (v2 % 4) * 64 + v3])
    case (Some(v0), Some(v1), Some(v2), None) =>
      if last && c3 == '=' then Some([v0 * 4 + v1 / 16, (v1 % 16) * 16 + v2 / 4]) else None
    case (Some(v0), Some(v1), None, None) =>
      if last && c2 == '=' && c3 == '=' then Some([v0 * 4 + v1 / 16]) else None
    case _ => None
  }

  function DecodeGroups(t: string): (r: Result<seq<byte>>)
    requires |t| % 4 == 0
    ensures r.Ok? ==> 3 * (|t| / 4) - 2 <= |r.value| <= 3 * (|t| / 4)
    ensures r.Err? ==> r.fault == Format
    decreases |t|
  {
    if t == [] then Ok([])
    else
      match DecodeGroup(t[0], t[1], t[2], t[3], |t| == 4)
      case None => Err(Format)
      case Some(head) =>
        match DecodeGroups(t[4..])
        case Err(f) => Err(f)
        case Ok(tail) => Ok(head + tail)
  }

  /** Convert.FromBase64String: white space skipped, then groups of four; anything else is a
      FormatException. */
  function Decode(s: string): (r: Result<seq<byte>>)
    ensures |StripWhiteSpace(s)| % 4 != 0 ==> r == Err(Format)
    ensures r.Err? ==> r.fault == Format
    ensures r.Ok? ==> var n := |StripWhiteSpace(s)| / 4; 3 * n - 2 <= |r.value| <= 3 * n
  {
    var t := StripWhiteSpace(s);
    if |t| % 4 != 0 then Err(Format) else DecodeGroups(t)
  }

  // =======================================================================================
  // Round trip

  /** Text without white space is kept as it is. */
  lemma {:induction false} StripNothing(s: string)
    requires forall i :: 0 <= i < |s| ==> !IsWhiteSpace(s[i])
    ensures StripWhiteSpace(s) == s
    decreases |s|
  {
    if s != [] {
      StripNothing(s[1..]);
    }
  }

  lemma DecodeBlock(b0: byte, b1: byte, b2: byte, last: bool)
    ensures var s := EncodeBlock(b0, b1, b2); DecodeGroup(s[0], s[1], s[2], s[3], last) == Some([b0, b1, b2])
  {
    var v1, v2 := (b0 % 4) * 16 + b1 / 16, (b1 % 16) * 4 + b2 / 64;
    assert v1 / 16 == b0 % 4 && v1 % 16 == b1 / 16;
    assert v2 / 4 == b1 % 16 && v2 % 4 == b2 / 64;
  }

  /** "xx==": the first character's 6 bits and the top 2 bits of the second. */
  lemma DecodeOne(b0: byte)
    ensures var s := EncodeOne(b0); DecodeGroup(s[0], s[1], s[2], s[3], true) == Some([b0])
  {
    var v0, v1 := b0 / 4, (b0 % 4) * 16;
    assert CharValue('=') == None;
    assert v1 / 16 == b0 % 4;
  }

  /** "xxx=": 16 bits spread over three characters. */
  lemma DecodeTwo(b0: byte, b1: byte)
    ensures var s := EncodeTwo(b0, b1); DecodeGroup(s[0], s[1], s[2], s[3], true) == Some([b0, b1])
  {
    var v0, v1, v2 := b0 / 4, (b0 % 4) * 16 + b1 / 16, (b1 % 16) * 4;
    assert CharValue('=') == None;
    assert v1 / 16 == b0 % 4 && v1 % 16 == b1 / 16 && v2 / 4 == b1 % 16;
  }

  /** Decoding what was encoded gives back the same bytes, for every byte string. */
  lemma {:induction false} DecodeEncode(b: seq<byte>)
    ensures Decode(Encode(b)) == Ok(b)
  {
    EncodeAlphabet(b);
    StripNothing(Encode(b));
    DecodeGroupsEncode(b);
  }

  /** Encode writes only alphabet characters and '='; in particular no white space. */
  lemma {:induction false} EncodeAlphabet(b: seq<byte>)
    ensures forall i :: 0 <= i < |Encode(b)| ==> Encode(b)[i] == '=' || CharValue(Encode(b)[i]).Some?
    ensures forall i :: 0 <= i < |Encode(b)| ==> !IsWhiteSpace(Encode(b)[i])
    decreases |b|
  {
    if |b| >= 3 {
      EncodeAlphabet(b[3..]);
    }
  }

  lemma {:induction false} DecodeGroupsEncode(b: seq<byte>)
    ensures DecodeGroups(Encode(b)) == Ok(b)
    decreases |b|
  {
    if |b| == 1 {
      assert Encode(b) == EncodeOne(b[0]);
      DecodeOne(b[0]);
      assert b == [b[0]];
      SingleGroup(EncodeOne(b[0]), b);
    } else if |b| == 2 {
      assert Encode(b) == EncodeTwo(b[0], b[1]);
      DecodeTwo(b[0], b[1]);
      assert b == [b[0], b[1]];
      SingleGroup(EncodeTwo(b[0], b[1]), b);
    } else if |b| >= 3 {
      assert b == [b[0], b[1], b[2]] + b[3..];
      var rest := Encode(b[3..]);
      assert Encode(b) == EncodeBlock(b[0], b[1], b[2]) + rest;
      DecodeBlock(b[0], b[1], b[2], rest == []);
      DecodeGroupsEncode(b[3..]);
      LeadingGroup(EncodeBlock(b[0], b[1], b[2]), rest, [b[0], b[1], b[2]], b[3..]);
    }
  }

  lemma SingleGroup(s: string, b: seq<byte>)
    requires |s| == 4 && DecodeGroup(s[0], s[1], s[2], s[3], true) == Some(b)
    ensures DecodeGroups(s) == Ok(b)
  {
    assert s[4..] == [];
    assert b + [] == b;
  }

  lemma LeadingGroup(group: string, rest: string, head: seq<byte>, tail: seq<byte>)
    requires |group| == 4 && |rest| % 4 == 0
    requires DecodeGroup(group[0], group[1], group[2], group[3], rest == []) == Some(head)
    requires DecodeGroups(rest) == Ok(tail)
    ensures DecodeGroups(group + rest) == Ok(head + tail)
  {
    var s := group + rest;
    assert s[4..] == rest;
    assert s[..4] == group;
  }

  /** The length of the encoding: four characters for every three bytes, rounded up. */
  lemma {:induction false} EncodeLength(b: seq<byte>)
    ensures |Encode(b)| == 4 * ((|b| + 2) / 3)
    decreases |b|
  {
    var n := |b|;
    if n >= 3 {
      EncodeLength(b[3..]);
      assert |Encode(b)| == 4 + |Encode(b[3..])|;
      assert (n + 2) / 3 == (n - 3 + 2) / 3 + 1;
    } else {
      assert (n + 2) / 3 == if n == 0 then 0 else 1;
    }
  }
}
