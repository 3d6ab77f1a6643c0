/** Rust strings and the cords the hull makes of them. */
module Text {
  import opened LittleEndian

  function Utf8Char(c: char): (r: seq<byte>)
    ensures |r| > 0
    ensures c != '\0' ==> forall i :: 0 <= i < |r| ==> r[i] != 0
    ensures if c as int < 0x80 then r == [c as int] else forall i :: 0 <= i < |r| ==> r[i] >= 0x80
  {
    var v := c as int;
    if v < 0x80 then [v]
    else if v < 0x800 then [0xC0 + v / 0x40, 0x80 + v % 0x40]
    else if v < 0x1_0000 then [0xE0 + v / 0x1000, 0x80 + v / 0x40 % 0x40, 0x80 + v % 0x40]
    else [0xF0 + v / 0x4_0000, 0x80 + v / 0x1000 % 0x40, 0x80 + v / 0x40 % 0x40, 0x80 + v % 0x40]
  }

  /** `start`, then six more bits for each byte. */
  function SixBits(start: int, bytes: seq<byte>): int
    decreases bytes
  {
    if bytes == [] then start else SixBits(start * 0x40 + (bytes[0] as int - 0x80), bytes[1..])
  }

  /** UTF-8: as many bytes as the size asks for, the first naming how many, six bits to each
      of the others. */
  lemma Utf8CharMeans(c: char)
    ensures var v, r := c as int, Utf8Char(c);
            && (v < 0x80 ==> r == [v])
            && (0x80 <= v < 0x800 ==> |r| == 2 && 0xC0 <= r[0] < 0xE0 && v == SixBits(r[0] as int - 0xC0, r[1..]))
            && (0x800 <= v < 0x1_0000 ==> |r| == 3 && 0xE0 <= r[0] < 0xF0 && v == SixBits(r[0] as int - 0xE0, r[1..]))
            && (0x1_0000 <= v ==> |r| == 4 && 0xF0 <= r[0] < 0xF8 && v == SixBits(r[0] as int - 0xF0, r[1..]))
            && forall i :: 0 < i < |r| ==> 0x80 <= r[i] < 0xC0
  {
    var v, r := c as int, Utf8Char(c);
    assert v / 0x1000 == v / 0x40 / 0x40 && v / 0x4_0000 == v / 0x1000 / 0x40;
    if |r| == 3 {
      var x, y := r[0] as int - 0xE0, r[1] as int - 0x80;
      assert r[1..][1..] == r[2..] && r[2..][1..] == [];
      assert SixBits(x, r[1..]) == SixBits(x * 0x40 + y, r[2..]) == (x * 0x40 + y) * 0x40 + (r[2] as int - 0x80);
    } else if |r| == 4 {
      var x, y, z := r[0] as int - 0xF0, r[1] as int - 0x80, r[2] as int - 0x80;
      assert r[1..][1..] == r[2..] && r[2..][1..] == r[3..] && r[3..][1..] == [];
      assert SixBits(x, r[1..]) == SixBits(x * 0x40 + y, r[2..]) == SixBits((x * 0x40 + y) * 0x40 + z, r[3..]);
      assert SixBits((x * 0x40 + y) * 0x40 + z, r[3..]) == ((x * 0x40 + y) * 0x40 + z) * 0x40 + v % 0x40;
      assert v / 0x40 == (v / 0x1000) * 0x40 + z && v / 0x1000 == x * 0x40 + y;
    }
  }

  function Utf8(s: string): seq<byte> {
    if s == [] then [] else Utf8Char(s[0]) + Utf8(s[1..])
  }

  /** `make_cord`: the bytes of a string, read as a little-endian atom. */
  function Cord(s: string): nat {
    Value(Utf8(s), 256)
  }

  predicate NulFree(s: string) {
    forall i :: 0 <= i < |s| ==> s[i] != '\0'
  }

  predicate Ascii(s: string) {
    forall i :: 0 <= i < |s| ==> s[i] as int < 0x80
  }

  /** `trim_end_matches('\0')`. */
  function TrimNuls(s: string): (r: string)
    ensures r == [] || r[|r| - 1] != '\0'
    ensures |r| <= |s| && s[..|r|] == r && forall i :: |r| <= i < |s| ==> s[i] == '\0'
  {
    if s != [] && s[|s| - 1] == '\0' then TrimNuls(s[..|s| - 1]) else s
  }

  lemma ConcatAssoc(x: seq<byte>, y: seq<byte>, z: seq<byte>)
    ensures x + (y + z) == (x + y) + z
  {
  }

  lemma {:induction false} Utf8Append(s: string, t: string)
    ensures Utf8(s + t) == Utf8(s) + Utf8(t)
  {
    if s == [] {
      assert s + t == t;
    } else {
      Utf8Append(s[1..], t);
      assert (s + t)[0] == s[0] && (s + t)[1..] == s[1..] + t;
      assert Utf8(s + t) == Utf8Char(s[0]) + Utf8(s[1..] + t);
      ConcatAssoc(Utf8Char(s[0]), Utf8(s[1..]), Utf8(t));
    }
  }

  lemma {:induction false} Utf8Last(s: string)
    requires s != [] && s[|s| - 1] != '\0'
    ensures Minimal(Utf8(s))
  {
    var front, last := s[..|s| - 1], s[|s| - 1];
    Utf8Append(front, [last]);
    assert s == front + [last];
    assert Utf8([last]) == Utf8Char(last) + [];
  }

  /** Trailing NULs leave no trace in a cord. */
  lemma {:induction false} CordTrims(s: string)
    ensures Cord(TrimNuls(s)) == Cord(s)
    decreases |s|
  {
    if s != [] && s[|s| - 1] == '\0' {
      var front := s[..|s| - 1];
      CordTrims(front);
      Utf8Append(front, "\0");
      assert s == front + "\0";
      assert Utf8("\0") == Utf8Char('\0') + Utf8("") == Zeros(1);
      ValuePadded(Utf8(front), 1, 256);
    }
  }

  lemma {:induction false} Utf8OfAscii(s: string)
    ensures Ascii(s) ==> |Utf8(s)| == |s| && forall i :: 0 <= i < |s| ==> Utf8(s)[i] == s[i] as int
    ensures NulFree(s) ==> forall i :: 0 <= i < |Utf8(s)| ==> Utf8(s)[i] != 0
  {
    if s != [] {
      Utf8OfAscii(s[1..]);
    }
  }

  /** What survives the trip through a cord is the string without its trailing NULs. */
  lemma {:induction false} CordBytes(s: string)
    ensures Digits(Cord(s), 256) == Utf8(TrimNuls(s))
  {
    var t := TrimNuls(s);
    CordTrims(s);
    if t != [] { Utf8Last(t); }
    DigitsOfValue(Utf8(t), 256);
  }

  /** A string with a non-ASCII character has a byte of 0x80 or more, at least as far
      from the end as the character is. */
  lemma NonAsciiByte(s: string, i: nat) returns (j: nat)
    requires i < |s| && s[i] as int >= 0x80
    ensures j < |Utf8(s)| && Utf8(s)[j] >= 0x80
    ensures |Utf8(s)| - j >= |s| - i
  {
    if i == 0 {
      j := 0;
      Utf8Long(s);
    } else {
      j := NonAsciiByte(s[1..], i - 1);
      j := j + |Utf8Char(s[0])|;
    }
  }

  lemma {:induction false} Utf8Long(s: string)
    ensures |Utf8(s)| >= |s|
  {
    if s != [] { Utf8Long(s[1..]); }
  }

  /** `char::is_whitespace`. */
  predicate Whitespace(c: char) {
    var v := c as int;
    || 9 <= v <= 13 || v == 0x20 || v == 0x85 || v == 0xA0 || v == 0x1680
    || 0x2000 <= v <= 0x200A || v == 0x2028 || v == 0x2029 || v == 0x202F || v == 0x205F || v == 0x3000
  }

  function TrimStart(s: string): string {
    if s != [] && Whitespace(s[0]) then TrimStart(s[1..]) else s
  }

  function TrimEnd(s: string): string {
    if s != [] && Whitespace(s[|s| - 1]) then TrimEnd(s[..|s| - 1]) else s
  }

  function Trim(s: string): string {
    TrimEnd(TrimStart(s))
  }

  lemma {:induction false} TrimEndKeepsStart(s: string)
    requires s == [] || !Whitespace(s[0])
    ensures TrimEnd(s) == [] || !Whitespace(TrimEnd(s)[0])
    ensures TrimEnd(TrimEnd(s)) == TrimEnd(s)
    decreases |s|
  {
    if s != [] && Whitespace(s[|s| - 1]) {
      TrimEndKeepsStart(s[..|s| - 1]);
    }
  }

  lemma {:induction false} TrimStartTrimmed(s: string)
    ensures TrimStart(s) == [] || !Whitespace(TrimStart(s)[0])
  {
    if s != [] && Whitespace(s[0]) { TrimStartTrimmed(s[1..]); }
  }

  ghost predicate AllWhitespace(s: string) {
    forall i :: 0 <= i < |s| ==> Whitespace(s[i])
  }

  /** Trimming takes whitespace off both ends, all of it and nothing else. */
  lemma TrimMeans(s: string)
    ensures exists pre, post :: s == pre + Trim(s) + post && AllWhitespace(pre) && AllWhitespace(post)
    ensures Trim(s) != "" ==> !Whitespace(Trim(s)[0]) && !Whitespace(Trim(s)[|Trim(s)| - 1])
  {
    var pre := TrimStartMeans(s);
    TrimStartTrimmed(s);
    TrimEndKeepsStart(TrimStart(s));
    var post := TrimEndMeans(TrimStart(s));
    assert s == pre + Trim(s) + post;
  }

  lemma TrimStartMeans(s: string) returns (pre: string)
    ensures s == pre + TrimStart(s) && AllWhitespace(pre)
  {
    pre := [];
    if s != [] && Whitespace(s[0]) {
      pre := TrimStartMeans(s[1..]);
      pre := [s[0]] + pre;
    }
  }

  lemma TrimEndMeans(s: string) returns (post: string)
    ensures s == TrimEnd(s) + post && AllWhitespace(post)
    ensures TrimEnd(s) != "" ==> !Whitespace(TrimEnd(s)[|TrimEnd(s)| - 1])
  {
    post := [];
    if s != [] && Whitespace(s[|s| - 1]) {
      post := TrimEndMeans(s[..|s| - 1]);
      post := post + [s[|s| - 1]];
    }
  }

  /** Trimming twice is trimming once. */
  lemma TrimIdempotent(s: string)
    ensures Trim(Trim(s)) == Trim(s)
  {
    TrimStartTrimmed(s);
    TrimEndKeepsStart(TrimStart(s));
  }
}
