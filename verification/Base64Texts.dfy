/** The alphabet and the bits of base64, and which texts decode at all. */
module Base64Texts {
  import opened Options
  import opened Base64

  /** Table 1 of RFC 4648: A to Z, a to z, 0 to 9, plus, slash, in that order. */
  lemma AlphabetIsInOrder(v: Sextet)
    ensures Letter(0) == 'A' && Letter(25) == 'Z' && Letter(26) == 'a' && Letter(51) == 'z'
    ensures Letter(52) == '0' && Letter(61) == '9' && Letter(62) == '+' && Letter(63) == '/'
    ensures v !in {25, 51, 61, 62, 63} ==> Letter(v + 1) as int == Letter(v) as int + 1
  {
  }

  predicate InAlphabet(ch: char) {
    'A' <= ch <= 'Z' || 'a' <= ch <= 'z' || '0' <= ch <= '9' || ch == '+' || ch == '/'
  }

  lemma SextetExactlyWhenLetter(ch: char)
    ensures SextetOf(ch).Some? <==> InAlphabet(ch)
    ensures SextetOf(ch).Some? ==> Letter(SextetOf(ch).value) == ch
  {
  }

  /** Sextets, or bytes, as one number, the first the most significant. */
  function Joined(parts: seq<int>, base: int): int {
    if parts == [] then 0 else Joined(parts[..|parts| - 1], base) * base + parts[|parts| - 1]
  }

  lemma JoinedFew(a: int, b: int, c: int, d: int, base: int)
    ensures Joined([a], base) == a && Joined([a, b], base) == a * base + b
    ensures Joined([a, b, c], base) == (a * base + b) * base + c
    ensures Joined([a, b, c, d], base) == ((a * base + b) * base + c) * base + d
  {
    assert [a][..0] == [] && [a, b][..1] == [a] && [a, b, c][..2] == [a, b] && [a, b, c, d][..3] == [a, b, c];
  }

  lemma WholeBits(s: int, t: int, u: int, v: int)
    requires 0 <= s < 64 && 0 <= t < 64 && 0 <= u < 64 && 0 <= v < 64
    ensures var x, y, z := s * 4 + t / 16, t % 16 * 16 + u / 4, u % 4 * 64 + v;
            && (x * 256 + y) * 256 + z == ((s * 64 + t) * 64 + u) * 64 + v
            && x * 256 + y == ((s * 64 + t) * 64 + u) / 4 && x == (s * 64 + t) / 16
  {
    assert t == t / 16 * 16 + t % 16 && u == u / 4 * 4 + u % 4;
  }

  lemma LettersRead(s: Sextet, t: Sextet, u: Sextet, v: Sextet)
    ensures Unquad([Letter(s), Letter(t), Letter(u), Letter(v)]) ==
            Some([s * 4 + t / 16, t % 16 * 16 + u / 4, u % 4 * 64 + v])
    ensures Unquad([Letter(s), Letter(t), Letter(u), '=']) == Some([s * 4 + t / 16, t % 16 * 16 + u / 4])
    ensures Unquad([Letter(s), Letter(t), '=', '=']) == Some([s * 4 + t / 16])
  {
    LetterBack(s);
    LetterBack(t);
    LetterBack(u);
    LetterBack(v);
  }

  /** Four letters are 24 bits and so are three bytes; before padding the bits that fill no byte are dropped. */
  lemma GroupsAreTheirBits(s: Sextet, t: Sextet, u: Sextet, v: Sextet, b: seq<int>)
    ensures Unquad([Letter(s), Letter(t), Letter(u), Letter(v)]) == Some(b) ==>
              |b| == 3 && Joined(b, 256) == Joined([s, t, u, v], 64)
    ensures Unquad([Letter(s), Letter(t), Letter(u), '=']) == Some(b) ==>
              |b| == 2 && Joined(b, 256) == Joined([s, t, u], 64) / 4
    ensures Unquad([Letter(s), Letter(t), '=', '=']) == Some(b) ==>
              |b| == 1 && Joined(b, 256) == Joined([s, t], 64) / 16
  {
    LettersRead(s, t, u, v);
    WholeBits(s, t, u, v);
    JoinedFew(s, t, u, v, 64);
    if 1 <= |b| <= 3 {
      JoinedFew(b[0], if |b| > 1 then b[1] else 0, if |b| > 2 then b[2] else 0, 0, 256);
      assert b == if |b| == 1 then [b[0]] else if |b| == 2 then [b[0], b[1]] else [b[0], b[1], b[2]];
    }
  }

  /** Letters only, but for one or two signs of padding at the end, in whole groups of four. */
  predicate WellPadded(s: string) {
    var n := |s|;
    && n % 4 == 0
    && forall i :: 0 <= i < n ==>
         InAlphabet(s[i]) || (s[i] == '=' && (i == n - 1 || (i == n - 2 && s[n - 1] == '=')))
  }

  lemma GroupDecodesExactlyWhen(q: string)
    requires |q| == 4
    ensures Unquad(q).Some? <==> WellPadded(q)
    ensures Unquad(q).Some? ==> (|Unquad(q).value| == 3 <==> InAlphabet(q[3]))
  {
    SextetExactlyWhenLetter(q[0]);
    SextetExactlyWhenLetter(q[1]);
    SextetExactlyWhenLetter(q[2]);
    SextetExactlyWhenLetter(q[3]);
  }

  lemma PaddedLater(s: string)
    requires |s| > 4
    ensures WellPadded(s) <==> WellPadded(s[..4]) && InAlphabet(s[3]) && WellPadded(s[4..])
  {
    var q, rest := s[..4], s[4..];
    assert forall i :: 0 <= i < |rest| ==> rest[i] == s[i + 4];
    assert forall i :: 4 <= i < |s| ==> s[i] == rest[i - 4];
    assert q[0] == s[0] && q[1] == s[1] && q[2] == s[2] && q[3] == s[3];
  }

  /** Decoding fails for every other text and for no such text. */
  lemma {:induction false} DecodesExactlyWhenPadded(s: string)
    ensures Decode(s).Some? <==> WellPadded(s)
    decreases |s|
  {
    if 4 <= |s| {
      GroupDecodesExactlyWhen(s[..4]);
      if |s| == 4 {
        assert s[..4] == s && s[4..] == "";
      } else {
        PaddedLater(s);
        DecodesExactlyWhenPadded(s[4..]);
      }
    }
  }
}
