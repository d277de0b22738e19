/** The per-user message encryptor: a memo table from code points to codes, its inverse, and the
    loops that encode, decode, save and restore. SHA-256 is left uninterpreted. */
module MessageEncryption {
  import opened Wrappers
  import opened Utf16
  import opened KeyMemo

  /** A base64 digest of 32 bytes (section 4 of RFC 4648). */
  type Digest = t: Text | |t| == 44 witness seq(44, _ => 0)

  /** `Number.prototype.toString` on a code point. */
  function Decimal(n: nat): Text {
    if n < 10 then [48 + n] else Decimal(n / 10) + [48 + n % 10]
  }

  /** Reading a numeral: each further digit counts once, what stands before it ten times. */
  function Value(digits: Text): int {
    if digits == [] then 0 else 10 * Value(digits[..|digits| - 1]) + (digits[|digits| - 1] as int - 0x30)
  }

  /** The decimal numeral of a number: digits only, none of them a leading zero. */
  ghost predicate IsNumeral(digits: Text, n: nat) {
    && digits != [] && Value(digits) == n
    && (forall i :: 0 <= i < |digits| ==> 0x30 <= digits[i] <= 0x39)
    && (|digits| > 1 ==> digits[0] != 0x30)
  }

  lemma {:induction false} DecimalIsNumeral(n: nat)
    ensures IsNumeral(Decimal(n), n)
    ensures n > 0 ==> Decimal(n)[0] != 0x30
  {
    if n >= 10 {
      DecimalIsNumeral(n / 10);
      var front := Decimal(n / 10);
      assert Decimal(n)[..|front|] == front;
    }
  }

  /** A number has one numeral, so what is hashed is fixed. */
  lemma {:induction false} NumeralUnique(a: Text, b: Text, n: nat)
    requires IsNumeral(a, n) && IsNumeral(b, n)
    ensures a == b
    decreases |a|
  {
    var a', b' := a[..|a| - 1], b[..|b| - 1];
    var d, e := a[|a| - 1] as int - 0x30, b[|b| - 1] as int - 0x30;
    ValueSign(a');
    ValueSign(b');
    assert Value(a') == Value(b') && d == e;
    if a' != [] && b' != [] {
      NumeralUnique(a', b', Value(a'));
    }
    assert a == a' + [a[|a| - 1]] && b == b' + [b[|b| - 1]];
  }

  /** A numeral without a leading zero is positive. */
  lemma {:induction false} ValueSign(digits: Text)
    requires forall i :: 0 <= i < |digits| ==> 0x30 <= digits[i] <= 0x39
    ensures Value(digits) >= 0
    ensures digits != [] && digits[0] != 0x30 ==> Value(digits) > 0
  {
    if digits != [] {
      ValueSign(digits[..|digits| - 1]);
    }
  }

  /** The first 8 units of the digest of the secret key followed by the code point in decimal. */
  function CodeOf(digest: Text -> Digest, secretKey: Text, c: CodePoint): Code {
    digest(secretKey + Decimal(c))[..8]
  }

  /** The code of a code point, told by the numeral that is hashed. */
  ghost predicate IsCodeOf(digest: Text -> Digest, secretKey: Text, c: CodePoint, code: Text) {
    exists numeral :: IsNumeral(numeral, c) && code == digest(secretKey + numeral)[..8]
  }

  lemma CodeOfExactly(digest: Text -> Digest, secretKey: Text, c: CodePoint, code: Text)
    ensures code == CodeOf(digest, secretKey, c) <==> IsCodeOf(digest, secretKey, c, code)
  {
    DecimalIsNumeral(c);
    if IsCodeOf(digest, secretKey, c, code) {
      var numeral :| IsNumeral(numeral, c) && code == digest(secretKey + numeral)[..8];
      NumeralUnique(numeral, Decimal(c), c);
    }
  }

  function HashWith(digest: Text -> Digest, secretKey: Text): Hash {
    (c: CodePoint) => CodeOf(digest, secretKey, c)
  }

  /** How far an encoding loop has come: `keys` and `done` at unit `i`. */
  ghost predicate Encoding(h: Hash, before: seq<CodePoint>, input: Text, i: nat,
                           keys: seq<CodePoint>, done: Text)
    requires i <= |input|
  {
    && Absorb(h, before, CodePoints(input)) == Absorb(h, keys, CodePoints(input[i..]))
    && Encode(h, CodePoints(input)) == done + Encode(h, CodePoints(input[i..]))
  }

  lemma EncodingStep(h: Hash, before: seq<CodePoint>, input: Text, i: nat, keys: seq<CodePoint>, done: Text)
    requires i < |input| && Encoding(h, before, input, i, keys, done)
    requires !Refused(h, keys, CodePointAt(input, i))
    ensures var c := CodePointAt(input, i);
            Encoding(h, before, input, i + Width(c), Note(keys, c), done + h(c))
  {
    var c := CodePointAt(input, i);
    CodePointsStep(input, i);
    AbsorbStep(h, keys, c, CodePoints(input[i + Width(c)..]));
    EncodeStep(h, done, c, CodePoints(input[i + Width(c)..]));
  }

  lemma EncodingStops(h: Hash, before: seq<CodePoint>, input: Text, i: nat, keys: seq<CodePoint>, done: Text)
    requires i < |input| && Encoding(h, before, input, i, keys, done)
    requires Refused(h, keys, CodePointAt(input, i))
    ensures var p := Absorb(h, before, CodePoints(input));
            && p.keys == keys && p.rest != [] && p.rest[0] == CodePointAt(input, i)
            && |Join(p.rest)| == |input| - i
  {
    CodePointsStep(input, i);
    AbsorbStep(h, keys, CodePointAt(input, i), CodePoints(input[i..])[1..]);
  }

  lemma EncodingStarts(h: Hash, before: seq<CodePoint>, input: Text)
    ensures Encoding(h, before, input, 0, before, [])
  {
    assert input[0..] == input;
    assert [] + Encode(h, CodePoints(input)) == Encode(h, CodePoints(input));
  }

  lemma EncodingEnds(h: Hash, before: seq<CodePoint>, input: Text, keys: seq<CodePoint>, done: Text)
    requires Encoding(h, before, input, |input|, keys, done)
    ensures Absorb(h, before, CodePoints(input)) == Progress(keys, [])
    ensures Encode(h, CodePoints(input)) == done
  {
    assert input[|input|..] == [] && done + [] == done;
  }

  ghost predicate NoNulBefore(input: Text, i: nat)
    requires i <= |input|
  {
    forall j :: 0 <= j < i ==> input[j] != 0
  }

  lemma NoNulRead(input: Text, i: nat)
    requires i < |input| && NoNulBefore(input, i)
    ensures var c := CodePointAt(input, i);
            if c == 0 then input[i] == 0 else NoNulBefore(input, i + Width(c))
  {
  }

  /** Chunk by chunk the codes of the code points. */
  ghost predicate ChunksCoded(digest: Text -> Digest, secretKey: Text, cs: seq<CodePoint>, e: Text) {
    |e| == 8 * |cs|
    && forall i: nat :: i < |cs| ==> IsCodeOf(digest, secretKey, cs[i], Chunk(e, i))
  }

  lemma ChunksAreCodes(digest: Text -> Digest, secretKey: Text, cs: seq<CodePoint>, e: Text)
    requires e == Encode(HashWith(digest, secretKey), cs)
    ensures ChunksCoded(digest, secretKey, cs, e)
  {
    forall i: nat | i < |cs| ensures IsCodeOf(digest, secretKey, cs[i], Chunk(e, i)) {
      EncodeAt(HashWith(digest, secretKey), cs, i);
      CodeOfExactly(digest, secretKey, cs[i], Chunk(e, i));
    }
  }

  /** A finished encoding, chunk by chunk. */
  lemma EncryptedExactly(digest: Text -> Digest, secretKey: Text, before: seq<CodePoint>, input: Text,
                         keys: seq<CodePoint>, done: Text)
    requires Encoding(HashWith(digest, secretKey), before, input, |input|, keys, done)
    ensures Absorb(HashWith(digest, secretKey), before, CodePoints(input)) == Progress(keys, [])
    ensures Encode(HashWith(digest, secretKey), CodePoints(input)) == done
    ensures ChunksCoded(digest, secretKey, CodePoints(input), done)
  {
    EncodingEnds(HashWith(digest, secretKey), before, input, keys, done);
    ChunksAreCodes(digest, secretKey, CodePoints(input), done);
  }

  lemma WholeChunks(n: nat) returns (chunks: nat)
    requires n % 8 == 0
    ensures n == 8 * chunks
  {
    chunks := n / 8;
  }

  /** What is left to decode, written after what was decoded, is the whole. */
  ghost predicate Continues(all: Result<seq<CodePoint>, Error>, done: Text,
                            left: Result<seq<CodePoint>, Error>) {
    match left
    case Err(error) => all == Err(error)
    case Ok(cs) => all.Ok? && Join(all.value) == done + Join(cs)
  }

  lemma DecodeContinues(all: Result<seq<CodePoint>, Error>, done: Text,
                        table: map<Text, CodePoint>, rest: Text)
    requires |rest| >= 8 && Continues(all, done, DecodeChunks(table, rest))
    ensures rest[..8] in table && table[rest[..8]] != 0 ==>
              Continues(all, done + FromCodePoint(table[rest[..8]]), DecodeChunks(table, rest[8..]))
    ensures rest[..8] !in table || table[rest[..8]] == 0 ==> all == Err(CannotDecode(rest[..8]))
  {
    if rest[..8] in table && table[rest[..8]] != 0 {
      DecodeStep(table, rest, table[rest[..8]]);
    }
  }

  class ESMessageEncryptor {
    const secretKey: Text
    const digest: Text -> Digest
    // A JavaScript Map iterates in insertion order; `order` lists the keys of `charMap` that way.
    var order: seq<CodePoint>
    var charMap: map<CodePoint, Code>
    var reverseMap: map<Text, CodePoint>

    function HashOf(): Hash { HashWith(digest, secretKey) }

    /** Both tables agree with the direct hash and are exact inverses. */
    ghost predicate Valid()
      reads this
    {
      && Sound(HashOf(), order)
      && charMap == Codes(HashOf(), order)
      && reverseMap == Inverse(HashOf(), order)
    }

    constructor (secretKey: Text, digest: Text -> Digest)
      ensures Valid() && order == []
      ensures this.secretKey == secretKey && this.digest == digest
    {
      this.secretKey := secretKey;
      this.digest := digest;
      order, charMap, reverseMap := [], map[], map[];
    }

    /** The source's constructor, which throws when the saved mappings cannot be read back. */
    static method Create(secretKey: Text, digest: Text -> Digest, mappingsData: Option<Text>)
      returns (encryptor: ESMessageEncryptor, outcome: Result<(), Error>)
      ensures fresh(encryptor) && encryptor.Valid()
      ensures encryptor.secretKey == secretKey && encryptor.digest == digest
      ensures var h := HashWith(digest, secretKey);
              var p := Restore(h, if mappingsData.Some? then mappingsData.value else []);
              encryptor.order == p.keys && (outcome.Ok? <==> p.rest == [])
    {
      encryptor := new ESMessageEncryptor(secretKey, digest);
      outcome := encryptor.InitMapping(mappingsData);
    }

    method EncryptChar(codePoint: CodePoint) returns (r: Result<Code, Error>)
      requires Valid() && codePoint != 0
      modifies this
      ensures Valid()
      ensures var h := HashOf();
              if Clash(h, old(order), codePoint) then
                order == old(order) && r.Err? && IsFault(h, order, codePoint, 0, r.error)
              else
                order == Note(old(order), codePoint) && r == Ok(h(codePoint))
      ensures r.Ok? ==> IsCodeOf(digest, secretKey, codePoint, r.value)
      ensures r.Err? ==>
                && order == old(order) && codePoint !in order
                && r.error.Collision? && r.error.codePoint == codePoint && r.error.known in order
                && exists code :: IsCodeOf(digest, secretKey, codePoint, code)
                                  && IsCodeOf(digest, secretKey, r.error.known, code)
    {
      CodeOfExactly(digest, secretKey, codePoint, HashOf()(codePoint));
      if codePoint in charMap {
        return Ok(charMap[codePoint]);
      }
      var input := secretKey + Decimal(codePoint);
      var hash := digest(input);
      var encoded: Code := hash[..8];
      ghost var h := HashOf();
      ClashIsInTable(h, order, codePoint);
      if encoded in reverseMap {
        CodeOfExactly(digest, secretKey, reverseMap[encoded], encoded);
        return Err(Collision(codePoint, reverseMap[encoded]));
      }
      TablesExtend(h, order, codePoint);
      charMap := charMap[codePoint := encoded];
      reverseMap := reverseMap[encoded := codePoint];
      order := order + [codePoint];
      return Ok(encoded);
    }

    method Encrypt(input: Text) returns (r: Result<Text, Error>)
      requires Valid()
      modifies this
      ensures Valid() && old(order) <= order
      ensures var h, cs := HashOf(), CodePoints(input);
              var p := Absorb(h, old(order), cs);
              && order == p.keys
              && (p.rest == [] ==> r == Ok(Encode(h, cs)))
              && (p.rest != [] ==>
                    r.Err? && |Join(p.rest)| <= |input|
                    && IsFault(h, p.keys, p.rest[0], |input| - |Join(p.rest)|, r.error))
      ensures r.Ok? ==> ChunksCoded(digest, secretKey, CodePoints(input), r.value)
      ensures r.Err? && !r.error.Collision? ==>
                r.error.InvalidCharacter? && r.error.position < |input|
                && input[r.error.position] == 0 && NoNulBefore(input, r.error.position)
      ensures r.Ok? ==> NoNulBefore(input, |input|)
    {
      ghost var h, before := HashOf(), order;
      var result: Text := [];
      var i := 0;
      AbsorbSound(h, before, CodePoints(input));
      EncodingStarts(h, before, input);
      while i < |input|
        invariant 0 <= i <= |input| && Valid()
        invariant Encoding(h, before, input, i, order, result)
        invariant NoNulBefore(input, i)
      {
        var codePoint := CodePointAt(input, i);
        NoNulRead(input, i);
        if Refused(h, order, codePoint) {
          EncodingStops(h, before, input, i, order, result);
        } else {
          EncodingStep(h, before, input, i, order, result);
        }
        if codePoint == 0 {
          return Err(InvalidCharacter(i));
        }
        var code := EncryptChar(codePoint);
        if code.Err? {
          return Err(code.error);
        }
        result := result + code.value;
        if codePoint > 0xFFFF {
          i := i + 1;
        }
        i := i + 1;
      }
      EncryptedExactly(digest, secretKey, before, input, order, result);
      r := Ok(result);
    }

    // Under Valid(), `reverseMap` is the inverse of the code table.
    method DecryptText(encoded: Text) returns (r: Result<Text, Error>)
      ensures r == Decrypt(reverseMap, encoded)
    {
      if |encoded| % 8 != 0 {
        return Err(InvalidEncodedString);
      }
      var result: Text := [];
      var i := 0;
      ghost var table, rest := reverseMap, encoded;
      ghost var all, chunks, k := DecodeChunks(table, encoded), 0, 0;
      chunks := WholeChunks(|encoded|);
      while i < |encoded|
        invariant 0 <= i <= |encoded| && rest == encoded[i..]
        invariant i == 8 * k && |encoded| == 8 * chunks
        invariant Continues(all, result, DecodeChunks(table, rest))
        decreases |encoded| - i
      {
        assert k < chunks;
        var chunk := encoded[i..i + 8];
        assert rest[..8] == chunk;
        DecodeContinues(all, result, table, rest);
        if chunk !in reverseMap || reverseMap[chunk] == 0 {
          return Err(CannotDecode(chunk));
        }
        result := result + FromCodePoint(reverseMap[chunk]);
        rest := rest[8..];
        i, k := i + 8, k + 1;
      }
      assert rest == [] && result + Join([]) == result;
      r := Ok(result);
    }

    method GetMappings() returns (mappings: Text)
      requires Valid()
      ensures mappings == Join(order)
    {
      mappings := [];
      for i := 0 to |order|
        invariant mappings + Join(order[i..]) == Join(order)
      {
        assert order[i..][1..] == order[i + 1..];
        mappings := mappings + FromCodePoint(order[i]);
      }
    }

    method InitMapping(mappingsData: Option<Text>) returns (outcome: Result<(), Error>)
      requires Valid()
      modifies this
      ensures Valid()
      ensures var text: Text := if mappingsData.Some? then mappingsData.value else [];
              var p := Absorb(HashOf(), old(order), Scan(text));
              && order == p.keys
              && (p.rest == [] ==> outcome.Ok?)
              && (p.rest != [] ==>
                    outcome.Err? && |p.rest| <= |text|
                    && IsFault(HashOf(), p.keys, p.rest[0], |text| - |p.rest|, outcome.error))
      ensures mappingsData.Some? ==>
                var text := mappingsData.value;
                && (outcome.Ok? ==> NoNulBefore(text, |text|))
                && (outcome.Err? && !outcome.error.Collision? ==>
                      outcome.error.InvalidCharacter? && outcome.error.position < |text|
                      && text[outcome.error.position] == 0 && NoNulBefore(text, outcome.error.position))
    {
      if mappingsData.None? || mappingsData.value == [] {
        return Ok(());
      }
      var text := mappingsData.value;
      ghost var h, rest := HashOf(), Scan(text);
      ghost var p := Absorb(h, order, rest);
      assert text[0..] == text;
      for i := 0 to |text|
        invariant Valid()
        invariant rest == Scan(text[i..]) && NoNulBefore(text, i)
        invariant Absorb(h, order, rest) == p
      {
        var codePoint := CodePointAt(text, i);
        ScanStep(text, i);
        rest := rest[1..];
        AbsorbStep(h, order, codePoint, rest);
        if codePoint == 0 {
          return Err(InvalidCharacter(i));
        }
        var code := EncryptChar(codePoint);
        if code.Err? {
          return Err(code.error);
        }
      }
      assert rest == [];
      outcome := Ok(());
    }
  }
}
