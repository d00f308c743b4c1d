/**
  Base64 (RFC 4648, section 4) between the query tab, which encodes bytes, and the cell view,
  which decodes a prefix of them.
*/
module Base64 {
  import opened Options
  import opened JsText

  type Byte = b: int | 0 <= b < 256
  type Sextet = v: int | 0 <= v < 64

  // ------------------------------------------------------------ the alphabet

  function Letter(v: Sextet): char {
    if v < 26 then ('A' as int + v) as char
    else if v < 52 then ('a' as int + v - 26) as char
    else if v < 62 then ('0' as int + v - 52) as char
    else if v == 62 then '+' else '/'
  }

  function SextetOf(ch: char): (v: Option<Sextet>) {
    if 'A' <= ch <= 'Z' then Some(ch as int - 'A' as int)
    else if 'a' <= ch <= 'z' then Some(ch as int - 'a' as int + 26)
    else if '0' <= ch <= '9' then Some(ch as int - '0' as int + 52)
    else if ch == '+' then Some(62) else if ch == '/' then Some(63) else None
  }

  lemma LetterBack(v: Sextet)
    ensures SextetOf(Letter(v)) == Some(v) && Letter(v) != '='
  {
  }

  // ------------------------------------------------------- btoa and atob

  /** Four letters for one to three bytes, padded. */
  function Quad(b: seq<Byte>): (q: string)
    requires 1 <= |b| <= 3
    ensures |q| == 4
  {
    var y: Byte := if |b| > 1 then b[1] else 0;
    var z: Byte := if |b| > 2 then b[2] else 0;
    [Letter(b[0] / 4), Letter(b[0] % 4 * 16 + y / 16)]
    + [if |b| > 1 then Letter(y % 16 * 4 + z / 64) else '='] + [if |b| > 2 then Letter(z % 64) else '=']
  }

  /** btoa */
  function Encode(b: seq<Byte>): (s: string)
    ensures |s| == (|b| + 2) / 3 * 4
  {
    if b == [] then "" else if |b| <= 3 then Quad(b) else Quad(b[..3]) + Encode(b[3..])
  }

  /** The bytes of four letters, the last one or two perhaps padding. */
  function Unquad(q: string): (b: Option<seq<Byte>>)
    requires |q| == 4
    ensures b.Some? ==> 1 <= |b.value| <= 3
  {
    var s, t, u, v := SextetOf(q[0]), SextetOf(q[1]), SextetOf(q[2]), SextetOf(q[3]);
    if s.None? || t.None? then None
    else
      var x: Byte := s.value * 4 + t.value / 16;
      if u.None? then if q[2] == '=' && q[3] == '=' then Some([x]) else None
      else
        var y: Byte := t.value % 16 * 16 + u.value / 4;
        if v.None? then if q[3] == '=' then Some([x, y]) else None
        else Some([x, y, u.value % 4 * 64 + v.value])
  }

  /** atob on whole groups: padding may stand in the last one only. */
  function Decode(s: string): Option<seq<Byte>>
    decreases |s|
  {
    if s == "" then Some([])
    else if |s| < 4 then None
    else
      var head := Unquad(s[..4]);
      if head.None? || (|s| > 4 && |head.value| < 3) then None
      else
        var rest := Decode(s[4..]);
        if rest.None? then None else Some(head.value + rest.value)
  }

  /** Three bytes cut into sextets and put together again. */
  lemma Bits(x: Byte, y: Byte, z: Byte)
    ensures x / 4 < 64 && x % 4 * 16 + y / 16 < 64 && y % 16 * 4 + z / 64 < 64
    ensures x / 4 * 4 + (x % 4 * 16 + y / 16) / 16 == x
    ensures (x % 4 * 16 + y / 16) % 16 * 16 + (y % 16 * 4 + z / 64) / 4 == y
    ensures (y % 16 * 4 + z / 64) % 4 * 64 + z % 64 == z
  {
    assert y / 16 < 16 && z / 64 < 4;
    assert (x % 4 * 16 + y / 16) / 16 == x % 4 && (x % 4 * 16 + y / 16) % 16 == y / 16;
    assert (y % 16 * 4 + z / 64) / 4 == y % 16 && (y % 16 * 4 + z / 64) % 4 == z / 64;
  }

  lemma LettersBack(x: Byte, y: Byte, z: Byte)
    ensures SextetOf(Letter(x / 4)) == Some(x / 4) && SextetOf(Letter(z % 64)) == Some(z % 64)
    ensures SextetOf(Letter(x % 4 * 16 + y / 16)) == Some(x % 4 * 16 + y / 16)
    ensures SextetOf(Letter(y % 16 * 4 + z / 64)) == Some(y % 16 * 4 + z / 64)
  {
    LetterBack(x / 4);
    LetterBack(x % 4 * 16 + y / 16);
    LetterBack(y % 16 * 4 + z / 64);
    LetterBack(z % 64);
  }

  lemma OneByteBack(x: Byte)
    ensures Unquad(Quad([x])) == Some([x])
  {
    Bits(x, 0, 0);
    LettersBack(x, 0, 0);
  }

  lemma TwoBytesBack(x: Byte, y: Byte)
    ensures Unquad(Quad([x, y])) == Some([x, y])
  {
    Bits(x, y, 0);
    LettersBack(x, y, 0);
  }

  lemma ThreeBytesBack(x: Byte, y: Byte, z: Byte)
    ensures Unquad(Quad([x, y, z])) == Some([x, y, z])
  {
    Bits(x, y, z);
    LettersBack(x, y, z);
  }

  lemma QuadBack(b: seq<Byte>)
    requires 1 <= |b| <= 3
    ensures Unquad(Quad(b)) == Some(b)
  {
    if |b| == 1 {
      OneByteBack(b[0]);
      assert b == [b[0]];
    } else if |b| == 2 {
      TwoBytesBack(b[0], b[1]);
      assert b == [b[0], b[1]];
    } else {
      ThreeBytesBack(b[0], b[1], b[2]);
      assert b == [b[0], b[1], b[2]];
    }
  }

  lemma DecodeStep(head: seq<Byte>, s: string, tail: seq<Byte>)
    requires |head| == 3 && Decode(s) == Some(tail)
    ensures Decode(Quad(head) + s) == Some(head + tail)
  {
    var all := Quad(head) + s;
    QuadBack(head);
    assert all[..4] == Quad(head) && all[4..] == s;
  }

  lemma DecodeLast(b: seq<Byte>)
    requires 1 <= |b| <= 3
    ensures Decode(Quad(b)) == Some(b)
  {
    QuadBack(b);
    assert Quad(b)[..4] == Quad(b) && Quad(b)[4..] == "";
    assert b + [] == b;
  }

  function Least(a: nat, b: nat): nat { if a < b then a else b }

  /** The bytes of the first groups. */
  function FirstBytes(b: seq<Byte>, groups: nat): seq<Byte> {
    b[..Least(3 * groups, |b|)]
  }

  /** The letters of the first groups. */
  function FirstLetters(b: seq<Byte>, groups: nat): string
    requires 4 * groups <= |Encode(b)|
  {
    Encode(b)[..4 * groups]
  }

  lemma MoreBytes(b: seq<Byte>, groups: nat)
    requires |b| > 3
    ensures FirstBytes(b, groups + 1) == b[..3] + FirstBytes(b[3..], groups)
  {
  }

  lemma MoreLetters(b: seq<Byte>, groups: nat)
    requires |b| > 3 && 4 * groups <= |Encode(b[3..])|
    ensures 4 * (groups + 1) <= |Encode(b)|
    ensures FirstLetters(b, groups + 1) == Quad(b[..3]) + FirstLetters(b[3..], groups)
  {
    HeadOf(Quad(b[..3]), Encode(b[3..]), 4 * groups);
  }

  lemma HeadOf(q: string, rest: string, n: nat)
    requires |q| == 4 && n <= |rest|
    ensures (q + rest)[..n + 4] == q + rest[..n]
  {
  }

  lemma OneGroupBack(b: seq<Byte>, groups: nat)
    requires (groups == 0 || 1 <= |b| <= 3) && 4 * groups <= |Encode(b)|
    ensures Decode(FirstLetters(b, groups)) == Some(FirstBytes(b, groups))
  {
    if groups == 0 {
      assert FirstLetters(b, 0) == "" && FirstBytes(b, 0) == [];
    } else {
      DecodeLast(b);
      assert FirstLetters(b, 1) == Quad(b) && FirstBytes(b, 1) == b;
    }
  }

  /** Decoding the first whole groups of an encoding gives that many bytes. */
  lemma {:induction false} GroupsBack(b: seq<Byte>, groups: nat)
    requires 4 * groups <= |Encode(b)|
    ensures Decode(FirstLetters(b, groups)) == Some(FirstBytes(b, groups))
    decreases |b|
  {
    if groups == 0 || |b| <= 3 {
      OneGroupBack(b, groups);
    } else {
      EncodeGrows(b);
      GroupsBack(b[3..], groups - 1);
      GroupBack(b, groups - 1, groups);
    }
  }

  lemma EncodeGrows(b: seq<Byte>)
    requires |b| > 3
    ensures |Encode(b)| == |Encode(b[3..])| + 4
  {
  }

  /** One more group. */
  lemma GroupBack(b: seq<Byte>, k: nat, groups: nat)
    requires |b| > 3 && 4 * k <= |Encode(b[3..])| && groups == k + 1 && 4 * groups <= |Encode(b)|
    requires Decode(FirstLetters(b[3..], k)) == Some(FirstBytes(b[3..], k))
    ensures Decode(FirstLetters(b, groups)) == Some(FirstBytes(b, groups))
  {
    MoreLetters(b, k);
    MoreBytes(b, k);
    DecodeStep(b[..3], FirstLetters(b[3..], k), FirstBytes(b[3..], k));
  }

  // ---------------------------------------------------------------- the code

  /** bytesToBase64: the binary string is built a chunk at a time. */
  method BytesToBase64(bytes: seq<Byte>, chunk: nat) returns (s: string)
    requires chunk > 0
    ensures s == Encode(bytes)
  {
    var binary: seq<Byte> := [];
    var i := 0;
    while i < |bytes|
      invariant 0 <= i && binary == bytes[..if i < |bytes| then i else |bytes|]
    {
      var end := if i + chunk < |bytes| then i + chunk else |bytes|;
      binary := binary + bytes[i..end];
      i := i + chunk;
    }
    assert binary == bytes;
    return Encode(binary);
  }

  /** base64ByteLength */
  function ByteLength(s: string): nat {
    var padding := if |s| >= 2 && s[|s| - 2..] == "==" then 2 else if |s| >= 1 && s[|s| - 1] == '=' then 1 else 0;
    var n := |s| * 3 / 4 - padding;
    if n < 0 then 0 else n
  }

  /** How much of a text decodePrefix decodes: enough whole groups for maxBytes. */
  function Usable(s: string, maxBytes: nat): (n: nat)
    ensures n <= |s| && n % 4 == 0
  {
    Least((maxBytes + 2) / 3 * 4, |s|) / 4 * 4
  }

  /** decodePrefix: at most maxBytes bytes, None where there is nothing to decode or it is not base64. */
  function Prefix(s: string, maxBytes: nat): Option<seq<Byte>> {
    var n := Usable(s, maxBytes);
    var b := Decode(s[..n]);
    if n == 0 || b.None? then None else Some(b.value[..Least(|b.value|, maxBytes)])
  }

  method DecodePrefix(base64: string, maxBytes: nat) returns (out: Option<seq<Byte>>)
    ensures out == Prefix(base64, maxBytes)
  {
    var groups := (maxBytes + 2) / 3;
    var head := base64[..Least(groups * 4, |base64|)];
    var usable := |head| - |head| % 4;
    assert usable == Usable(base64, maxBytes) && head[..usable] == base64[..usable];
    if usable == 0 { return None; }
    var binary := Decode(head[..usable]);
    if binary.None? { return None; }
    var n := Least(|binary.value|, maxBytes);
    var bytes: seq<Byte> := [];
    for i := 0 to n
      invariant bytes == binary.value[..i]
    {
      bytes := bytes + [binary.value[i]];
    }
    return Some(bytes);
  }

  lemma UpThird(n: nat)
    ensures n <= 3 * ((n + 2) / 3) <= n + 2
  {
  }

  lemma UsableIs(s: string, maxBytes: nat, groups: nat)
    requires |s| == 4 * groups
    ensures Usable(s, maxBytes) == 4 * Least((maxBytes + 2) / 3, groups)
  {
    var a := (maxBytes + 2) / 3;
    assert Least(a * 4, 4 * groups) == 4 * Least(a, groups);
    assert 4 * Least(a, groups) / 4 == Least(a, groups);
  }

  lemma EnoughGroups(n: nat, m: nat, a: nat, g: nat)
    requires n <= 3 * g <= n + 2 && m <= 3 * a <= m + 2
    ensures Least(a, g) == 0 <==> n == 0 || m == 0
    ensures Least(Least(3 * Least(a, g), n), m) == Least(n, m)
  {
  }

  lemma PrefixOfGroups(bytes: seq<Byte>, maxBytes: nat, k: nat)
    requires 4 * k <= |Encode(bytes)| && Usable(Encode(bytes), maxBytes) == 4 * k
    ensures Prefix(Encode(bytes), maxBytes)
            == if k == 0 then None else Some(bytes[..Least(Least(3 * k, |bytes|), maxBytes)])
  {
    GroupsBack(bytes, k);
    var b := bytes[..Least(3 * k, |bytes|)];
    assert b[..Least(|b|, maxBytes)] == bytes[..Least(|b|, maxBytes)];
  }

  /** What the query tab encodes, the cell view decodes: exactly the first maxBytes bytes, or all there are. */
  lemma PrefixOfEncoded(bytes: seq<Byte>, maxBytes: nat)
    ensures Prefix(Encode(bytes), maxBytes)
            == if bytes == [] || maxBytes == 0 then None else Some(bytes[..Least(|bytes|, maxBytes)])
  {
    var a, g := (maxBytes + 2) / 3, (|bytes| + 2) / 3;
    UpThird(maxBytes);
    UpThird(|bytes|);
    UsableIs(Encode(bytes), maxBytes, g);
    PrefixOfGroups(bytes, maxBytes, Least(a, g));
    EnoughGroups(|bytes|, maxBytes, a, g);
  }

  // ----------------------------------------------------------------- lengths

  /** How many bytes the last group of n lacks. */
  function Missing(n: nat): (k: nat)
    ensures k <= 2 && n + k == 3 * ((n + 2) / 3)
  {
    (3 - n % 3) % 3
  }

  /** An encoding without its padding. */
  function Unpadded(b: seq<Byte>): string {
    var s := Encode(b);
    if b == [] then s else s[..|s| - Missing(|b|)]
  }

  /** A text ends with k padding characters. */
  predicate EndsPadded(s: string, k: nat) {
    && |s| >= 3 && k <= 2
    && (s[|s| - 1] == '=' <==> k >= 1) && (s[|s| - 2] == '=' <==> k == 2) && s[|s| - 3] != '='
  }

  lemma QuadPadding(b: seq<Byte>)
    requires 1 <= |b| <= 3
    ensures EndsPadded(Quad(b), Missing(|b|))
  {
    var y: Byte := if |b| > 1 then b[1] else 0;
    var z: Byte := if |b| > 2 then b[2] else 0;
    LetterBack(b[0] % 4 * 16 + y / 16);
    LetterBack(y % 16 * 4 + z / 64);
    LetterBack(z % 64);
  }

  /** An encoding ends with as many padding characters as bytes are missing from its last group. */
  lemma {:induction false} PaddingOf(b: seq<Byte>)
    requires b != []
    ensures EndsPadded(Encode(b), Missing(|b|))
    decreases |b|
  {
    if |b| > 3 {
      PaddingOf(b[3..]);
    } else {
      QuadPadding(b);
    }
  }

  lemma EndsWithTwo(s: string)
    requires |s| >= 2
    ensures s[|s| - 2..] == "==" <==> s[|s| - 2] == '=' && s[|s| - 1] == '='
  {
    assert s[|s| - 2..] == [s[|s| - 2], s[|s| - 1]];
  }

  lemma LengthOfPadded(s: string, groups: nat, k: nat)
    requires EndsPadded(s, k) && |s| == 4 * groups
    ensures ByteLength(s) == 3 * groups - k
  {
    EndsWithTwo(s);
    assert |s| * 3 / 4 == 3 * groups;
  }

  lemma LengthOfUnpadded(s: string, groups: nat, k: nat)
    requires EndsPadded(s, k) && |s| == 4 * groups
    ensures ByteLength(s[..|s| - k]) == 3 * groups - k
  {
    var t := s[..|s| - k];
    EndsWithTwo(t);
    assert (4 * groups - k) * 3 / 4 == 3 * groups - k;
  }

  lemma LengthsOfGroups(s: string, n: nat, groups: nat)
    requires groups == (n + 2) / 3 && |s| == 4 * groups && EndsPadded(s, Missing(n))
    ensures ByteLength(s) == n && ByteLength(s[..|s| - Missing(n)]) == n
  {
    LengthOfPadded(s, groups, Missing(n));
    LengthOfUnpadded(s, groups, Missing(n));
  }

  /** base64ByteLength is the number of bytes encoded, padded or not. */
  lemma ByteLengthIsExact(b: seq<Byte>)
    ensures ByteLength(Encode(b)) == |b| && ByteLength(Unpadded(b)) == |b|
  {
    if b != [] {
      PaddingOf(b);
      LengthsOfGroups(Encode(b), |b|, (|b| + 2) / 3);
    } else {
      assert ByteLength("") == 0;
    }
  }

  // ----------------------------------------------------------- normalisation

  function Standard(ch: char): char {
    if ch == '-' then '+' else if ch == '_' then '/' else ch
  }

  function UrlSafe(ch: char): char {
    if ch == '+' then '-' else if ch == '/' then '_' else ch
  }

  /** normalizeBase64: white space goes, and the URL alphabet becomes the standard one. */
  function Normalized(s: string): string {
    if s == "" then "" else if Space(s[0]) then Normalized(s[1..]) else [Standard(s[0])] + Normalized(s[1..])
  }

  /** w is s with white space put in anywhere and, letter by letter, either alphabet. */
  ghost predicate Wraps(w: string, s: string)
    decreases |w|
  {
    if w == "" then s == ""
    else if Space(w[0]) then Wraps(w[1..], s)
    else s != "" && (w[0] == s[0] || w[0] == UrlSafe(s[0])) && Wraps(w[1..], s[1..])
  }

  /** No letter of an encoding belongs to the URL alphabet only. */
  lemma {:induction false} EncodedIsStandard(b: seq<Byte>)
    ensures forall ch <- Encode(b) :: ch != '-' && ch != '_'
    decreases |b|
  {
    if |b| > 3 { EncodedIsStandard(b[3..]); }
  }

  lemma {:induction false} NormalizedUnwraps(w: string, s: string)
    requires Wraps(w, s) && forall ch <- s :: ch != '-' && ch != '_'
    ensures Normalized(w) == s
    decreases |w|
  {
    if w != "" {
      if Space(w[0]) {
        NormalizedUnwraps(w[1..], s);
      } else {
        assert s[0] in s && forall ch <- s[1..] :: ch in s;
        NormalizedUnwraps(w[1..], s[1..]);
      }
    }
  }

  /** An encoding that was wrapped, or written in the URL alphabet, decodes to the same bytes and measures the same. */
  lemma WrappedDecodesTheSame(w: string, bytes: seq<Byte>, maxBytes: nat)
    requires Wraps(w, Encode(bytes)) && bytes != [] && maxBytes > 0
    ensures Prefix(Normalized(w), maxBytes) == Some(bytes[..Least(|bytes|, maxBytes)])
    ensures ByteLength(Normalized(w)) == |bytes|
  {
    EncodedIsStandard(bytes);
    NormalizedUnwraps(w, Encode(bytes));
    PrefixOfEncoded(bytes, maxBytes);
    ByteLengthIsExact(bytes);
  }
}
