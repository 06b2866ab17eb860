// Where the strings the loader makes of \u escapes are those of RFC 4627, section 2.5.

module JsonSurrogates {
  import opened JsonText
  import opened JsonLoader
  import opened JsonGrammar

  predicate IsHigh(ch: Char) {
    GoodChar(ch) && ch.Uni? && 0xD800 <= CodePoint(ch.a, ch.b, ch.c, ch.d) < 0xDC00
  }

  predicate IsLow(ch: Char) {
    GoodChar(ch) && ch.Uni? && 0xDC00 <= CodePoint(ch.a, ch.b, ch.c, ch.d) < 0xE000
  }

  // Two escapes that the RFC reads as one character outside the basic plane.
  predicate IsPair(high: Char, low: Char) {
    IsHigh(high) && IsLow(low)
  }

  function PairPoint(high: Char, low: Char): (c: nat)
    requires IsPair(high, low)
    ensures 0x10000 <= c < 0x110000
  {
    0x10000 + 0x400 * (CodePoint(high.a, high.b, high.c, high.d) - 0xD800)
      + CodePoint(low.a, low.b, low.c, low.d) - 0xDC00
  }

  // The bytes of a string as the RFC has it; a surrogate that is not in a pair stays alone.
  function RfcText(chars: seq<Char>): seq<Byte>
    requires GoodChars(chars)
  {
    if chars == [] then []
    else if |chars| > 1 && IsPair(chars[0], chars[1]) then Utf8(PairPoint(chars[0], chars[1])) + RfcText(chars[2..])
    else CharValue(chars[0]) + RfcText(chars[1..])
  }

  predicate NoPairs(chars: seq<Char>) {
    forall i :: 0 < i < |chars| ==> !IsPair(chars[i - 1], chars[i])
  }

  lemma NoPairsTail(chars: seq<Char>)
    requires chars != []
    ensures NoPairs(chars) <==> NoPairs(chars[1..]) && (|chars| > 1 ==> !IsPair(chars[0], chars[1]))
  {
    var tail := chars[1..];
    if NoPairs(chars) {
      forall i | 0 < i < |tail| ensures !IsPair(tail[i - 1], tail[i]) {
        assert !IsPair(chars[i + 1 - 1], chars[i + 1]);
      }
    } else {
      var i :| 0 < i < |chars| && IsPair(chars[i - 1], chars[i]);
      if i > 1 { assert IsPair(tail[i - 1 - 1], tail[i - 1]); }
    }
  }

  // A pair is four bytes to the RFC and six to the loader.
  lemma PairLengths(high: Char, low: Char)
    requires IsPair(high, low)
    ensures |CharValue(high)| == |CharValue(low)| == 3 && |Utf8(PairPoint(high, low))| == 4
  {
  }

  lemma {:induction false} LongerIff(chars: seq<Char>)
    requires GoodChars(chars)
    ensures |RfcText(chars)| <= |CharsValue(chars)|
    ensures |RfcText(chars)| == |CharsValue(chars)| <==> NoPairs(chars)
    ensures NoPairs(chars) ==> RfcText(chars) == CharsValue(chars)
    decreases chars
  {
    if chars != [] {
      NoPairsTail(chars);
      if |chars| > 1 && IsPair(chars[0], chars[1]) {
        PairLengths(chars[0], chars[1]);
        LongerIff(chars[2..]);
        assert chars[1..][1..] == chars[2..];
        assert CharsValue(chars) == CharValue(chars[0]) + (CharValue(chars[1]) + CharsValue(chars[2..]));
      } else {
        LongerIff(chars[1..]);
      }
    }
  }

  // A JSON string is read as the RFC's exactly if no two adjacent escapes in it form a pair.
  lemma RfcStringIff(chars: seq<Char>, rest: seq<Byte>)
    requires GoodChars(chars)
    ensures ReadToken(Quoted(chars) + rest) == (Atomic(Str(RfcText(chars))), rest) <==> NoPairs(chars)
  {
    StringToken(chars, rest);
    LongerIff(chars);
  }
}
