/** JavaScript strings: sequences of 16-bit code units, read and written by code point.
    The surrogate arithmetic is that of sections 2.1 and 2.2 of RFC 2781; a surrogate with no
    partner stands for itself (section 11.1.4 of ECMA-262, edition of 2021). */
module Utf16 {
  type Unit = n: int | 0 <= n < 0x1_0000
  type CodePoint = n: int | 0 <= n < 0x11_0000
  type Text = seq<Unit>

  predicate IsHigh(n: int) { 0xD800 <= n <= 0xDBFF }

  predicate IsLow(n: int) { 0xDC00 <= n <= 0xDFFF }

  predicate IsSupplementary(c: CodePoint) { c > 0xFFFF }

  function Combine(high: Unit, low: Unit): (c: CodePoint)
    requires IsHigh(high) && IsLow(low)
  {
    (high - 0xD800) * 0x400 + (low - 0xDC00) + 0x1_0000
  }

  function HighHalf(c: CodePoint): (u: Unit)
    requires IsSupplementary(c)
  {
    0xD800 + (c - 0x1_0000) / 0x400
  }

  function LowHalf(c: CodePoint): (u: Unit)
    requires IsSupplementary(c)
  {
    0xDC00 + (c - 0x1_0000) % 0x400
  }

  /** `String.prototype.codePointAt` */
  function CodePointAt(s: Text, i: nat): (c: CodePoint)
    requires i < |s|
    ensures i + Width(c) <= |s|
  {
    if IsHigh(s[i]) && i + 1 < |s| && IsLow(s[i + 1]) then Combine(s[i], s[i + 1]) else s[i]
  }

  /** `String.fromCodePoint` */
  function FromCodePoint(c: CodePoint): Text
  {
    if IsSupplementary(c) then [HighHalf(c), LowHalf(c)] else [c]
  }

  /** How many units a code point read from a string covers. */
  function Width(c: CodePoint): nat
  {
    if IsSupplementary(c) then 2 else 1
  }

  /** The code points of a string, a well-formed pair counting once. */
  function CodePoints(s: Text): seq<CodePoint>
    decreases |s|
  {
    if s == [] then [] else
      var c := CodePointAt(s, 0);
      [c] + CodePoints(s[Width(c)..])
  }

  /** The code point at every index, so that the low half of a pair is read once more. */
  function Scan(s: Text): seq<CodePoint>
  {
    if s == [] then [] else [CodePointAt(s, 0)] + Scan(s[1..])
  }

  lemma ScanLength(s: Text)
    ensures |Scan(s)| == |s|
  {
  }

  lemma ScanStep(s: Text, i: nat)
    requires i < |s|
    ensures Scan(s[i..]) == [CodePointAt(s, i)] + Scan(s[i + 1..]) && |Scan(s[i..])| == |s| - i
  {
    assert s[i..][1..] == s[i + 1..] && CodePointAt(s[i..], 0) == CodePointAt(s, i);
    ScanLength(s[i..]);
  }

  /** The string made by writing code points one after the other. */
  function Join(cs: seq<CodePoint>): Text
  {
    if cs == [] then [] else FromCodePoint(cs[0]) + Join(cs[1..])
  }

  /** No lone high surrogate stands directly before a lone low one, so joining fuses nothing. */
  ghost predicate Separate(cs: seq<CodePoint>) {
    forall i :: 0 <= i < |cs| - 1 ==> !(IsHigh(cs[i]) && IsLow(cs[i + 1]))
  }

  /** Every supplementary code point followed by its low half. */
  function Expand(cs: seq<CodePoint>): seq<CodePoint>
  {
    if cs == [] then []
    else if IsSupplementary(cs[0]) then [cs[0], LowHalf(cs[0])] + Expand(cs[1..])
    else [cs[0]] + Expand(cs[1..])
  }

  lemma HalvesCombine(c: CodePoint)
    requires IsSupplementary(c)
    ensures IsHigh(HighHalf(c)) && IsLow(LowHalf(c)) && Combine(HighHalf(c), LowHalf(c)) == c
  {
  }

  /** The pairs stand for the supplementary code points in order: the first for the first, and each
      next one, carrying into the high half after the last low half, for the next. */
  lemma PairsInOrder(high: Unit, low: Unit)
    requires IsHigh(high) && IsLow(low)
    ensures Combine(0xD800, 0xDC00) == 0x1_0000 && Combine(0xDBFF, 0xDFFF) == 0x10_FFFF
    ensures IsLow(low + 1) ==> Combine(high, low + 1) == Combine(high, low) + 1
    ensures IsHigh(high + 1) ==> Combine(high + 1, 0xDC00) == Combine(high, 0xDFFF) + 1
  {
  }

  lemma CombineSplits(high: Unit, low: Unit)
    requires IsHigh(high) && IsLow(low)
    ensures IsSupplementary(Combine(high, low))
    ensures FromCodePoint(Combine(high, low)) == [high, low]
  {
    assert (Combine(high, low) - 0x1_0000) / 0x400 == high - 0xD800;
  }

  lemma ConcatAssociative(a: Text, b: Text, c: Text)
    ensures a + (b + c) == (a + b) + c
  {
  }

  lemma {:induction false} JoinAppend(a: seq<CodePoint>, b: seq<CodePoint>)
    ensures Join(a + b) == Join(a) + Join(b)
  {
    if a == [] {
      assert a + b == b;
    } else {
      JoinAppend(a[1..], b);
      assert (a + b)[0] == a[0] && (a + b)[1..] == a[1..] + b;
      ConcatAssociative(FromCodePoint(a[0]), Join(a[1..]), Join(b));
    }
  }

  /** Writing back what was read gives the same string, lone surrogates included. */
  lemma {:induction false} JoinCodePoints(s: Text)
    ensures Join(CodePoints(s)) == s
    decreases |s|
  {
    if s != [] {
      var c := CodePointAt(s, 0);
      if IsHigh(s[0]) && 1 < |s| && IsLow(s[1]) {
        CombineSplits(s[0], s[1]);
        assert s == [s[0], s[1]] + s[2..];
      } else {
        assert s == [s[0]] + s[1..];
      }
      JoinCodePoints(s[Width(c)..]);
      assert CodePoints(s)[1..] == CodePoints(s[Width(c)..]);
    }
  }

  /** What reading the front of a written string gives. */
  lemma JoinFront(cs: seq<CodePoint>)
    requires cs != []
    ensures Join(cs) != []
    ensures Join(cs)[0] == if IsSupplementary(cs[0]) then HighHalf(cs[0]) else cs[0]
    ensures IsHigh(cs[0]) && |cs| > 1 && IsLow(cs[1]) ==>
              |Join(cs)| > 1 && Join(cs)[1] == cs[1]
              && CodePointAt(Join(cs), 0) == Combine(cs[0], cs[1])
              && Join(cs)[2..] == Join(cs[2..])
    ensures !(IsHigh(cs[0]) && |cs| > 1 && IsLow(cs[1])) ==>
              CodePointAt(Join(cs), 0) == cs[0] && Width(cs[0]) <= |Join(cs)|
              && Join(cs)[Width(cs[0])..] == Join(cs[1..])
  {
    var c := cs[0];
    if IsSupplementary(c) {
      HalvesCombine(c);
    } else if |cs| > 1 {
      if IsSupplementary(cs[1]) { HalvesCombine(cs[1]); }
      assert Join(cs) == [c] + (FromCodePoint(cs[1]) + Join(cs[1..][1..]));
      assert cs[1..][1..] == cs[2..];
    }
  }

  /** Reading never takes more code points than were written, and takes as many exactly when
      nothing was fused; then it reads back the very code points. */
  lemma {:induction false} CodePointsJoin(cs: seq<CodePoint>)
    ensures |CodePoints(Join(cs))| <= |cs|
    ensures Separate(cs) <==> |CodePoints(Join(cs))| == |cs|
    ensures Separate(cs) <==> CodePoints(Join(cs)) == cs
    decreases |cs|
  {
    if cs != [] {
      JoinFront(cs);
      var c := cs[0];
      if IsHigh(c) && |cs| > 1 && IsLow(cs[1]) {
        CombineSplits(c, cs[1]);
        CodePointsJoin(cs[2..]);
        assert !Separate(cs);
      } else {
        CodePointsJoin(cs[1..]);
        assert Separate(cs) <==> Separate(cs[1..]) by { SeparateTail(cs); }
        assert CodePoints(Join(cs)) == [c] + CodePoints(Join(cs[1..]));
        assert cs == [c] + cs[1..];
      }
    }
  }

  lemma SeparateTail(cs: seq<CodePoint>)
    requires cs != []
    ensures Separate(cs) <==>
            (|cs| > 1 ==> !(IsHigh(cs[0]) && IsLow(cs[1]))) && Separate(cs[1..])
  {
    if (|cs| > 1 ==> !(IsHigh(cs[0]) && IsLow(cs[1]))) && Separate(cs[1..]) {
      forall i | 0 <= i < |cs| - 1
        ensures !(IsHigh(cs[i]) && IsLow(cs[i + 1]))
      {
        if i > 0 { assert cs[i] == cs[1..][i - 1] && cs[i + 1] == cs[1..][i]; }
      }
    }
    if Separate(cs) {
      forall i | 0 <= i < |cs[1..]| - 1
        ensures !(IsHigh(cs[1..][i]) && IsLow(cs[1..][i + 1]))
      {
        assert cs[1..][i] == cs[i + 1] && cs[1..][i + 1] == cs[i + 2];
      }
    }
  }

  /** A string is never read as a lone high surrogate followed by a lone low one. */
  lemma CodePointsSeparate(s: Text)
    ensures Separate(CodePoints(s))
  {
    JoinCodePoints(s);
    CodePointsJoin(CodePoints(s));
  }

  lemma ScanFront(s: Text, c: CodePoint, rest: Text)
    requires s == FromCodePoint(c) + rest && CodePointAt(s, 0) == c
    ensures IsSupplementary(c) ==> Scan(s) == [c, LowHalf(c)] + Scan(rest)
    ensures !IsSupplementary(c) ==> Scan(s) == [c] + Scan(rest)
  {
    if IsSupplementary(c) {
      HalvesCombine(c);
      assert s[1..] == [LowHalf(c)] + rest;
      assert s[1..][1..] == rest && s[1..][0] == LowHalf(c);
      assert Scan(s[1..]) == [LowHalf(c)] + Scan(rest);
      assert [c] + ([LowHalf(c)] + Scan(rest)) == [c, LowHalf(c)] + Scan(rest);
    } else {
      assert s[1..] == rest;
    }
  }

  /** Reading at every index sees each written code point, and the low half of each pair again. */
  lemma {:induction false} ScanJoin(cs: seq<CodePoint>)
    requires Separate(cs)
    ensures Scan(Join(cs)) == Expand(cs)
  {
    if cs != [] {
      JoinFront(cs);
      SeparateTail(cs);
      ScanJoin(cs[1..]);
      ScanFront(Join(cs), cs[0], Join(cs[1..]));
    }
  }

  lemma {:induction false} ScanCodePoints(s: Text)
    ensures Scan(s) == Expand(CodePoints(s))
  {
    CodePointsSeparate(s);
    ScanJoin(CodePoints(s));
    JoinCodePoints(s);
  }

  lemma {:induction false} ExpandMembers(cs: seq<CodePoint>, x: CodePoint)
    ensures x in Expand(cs) <==>
            x in cs || exists c :: c in cs && IsSupplementary(c) && x == LowHalf(c)
  {
    if cs != [] {
      ExpandMembers(cs[1..], x);
      assert cs == [cs[0]] + cs[1..];
      assert forall c :: c in cs <==> c == cs[0] || c in cs[1..];
      var head := if IsSupplementary(cs[0]) then [cs[0], LowHalf(cs[0])] else [cs[0]];
      assert Expand(cs) == head + Expand(cs[1..]);
      assert x in Expand(cs) <==> x in head || x in Expand(cs[1..]);
      assert x in head <==> x == cs[0] || (IsSupplementary(cs[0]) && x == LowHalf(cs[0]));
    }
  }

  /** A high surrogate is read back only where some written one has no low surrogate after it. */
  lemma {:induction false} HighReadBack(cs: seq<CodePoint>, x: CodePoint)
    requires IsHigh(x) && x in Scan(Join(cs))
    ensures exists j :: 0 <= j < |cs| && cs[j] == x && (j + 1 < |cs| ==> !IsLow(cs[j + 1]))
    decreases |cs|
  {
    if cs != [] {
      JoinFront(cs);
      var s := Join(cs);
      var c := cs[0];
      if IsHigh(c) && |cs| > 1 && IsLow(cs[1]) {
        CombineSplits(c, cs[1]);
        assert s[1..][0] == cs[1] && s[1..][1..] == Join(cs[2..]);
        assert Scan(s) == [Combine(c, cs[1])] + ([CodePointAt(s[1..], 0)] + Scan(Join(cs[2..])));
        assert x in Scan(Join(cs[2..]));
        HighReadBack(cs[2..], x);
        var j :| 0 <= j < |cs[2..]| && cs[2..][j] == x
                 && (j + 1 < |cs[2..]| ==> !IsLow(cs[2..][j + 1]));
        assert cs[j + 2] == x;
      } else if x == c {
        assert cs[0] == x;
      } else {
        if IsSupplementary(c) {
          HalvesCombine(c);
          assert s[1..][1..] == Join(cs[1..]) && s[1..][0] == LowHalf(c);
          assert Scan(s) == [c] + ([LowHalf(c)] + Scan(Join(cs[1..])));
        }
        assert x in Scan(Join(cs[1..]));
        HighReadBack(cs[1..], x);
        var j :| 0 <= j < |cs[1..]| && cs[1..][j] == x
                 && (j + 1 < |cs[1..]| ==> !IsLow(cs[1..][j + 1]));
        assert cs[j + 1] == x;
      }
    }
  }
}
