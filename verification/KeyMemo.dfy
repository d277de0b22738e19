/** What the message encryptor remembers, as a sequence of code points in the order they were first
    met, and what it makes of strings. Everything is relative to a hash `h` that gives each code
    point its 8-unit code; nothing is assumed about `h`, so two code points may collide. */
module KeyMemo {
  import opened Wrappers
  import opened Utf16

  type Code = t: Text | |t| == 8 witness [0, 0, 0, 0, 0, 0, 0, 0]
  type Hash = CodePoint -> Code

  datatype Error =
    | Collision(codePoint: CodePoint, known: CodePoint)
    | InvalidCharacter(position: nat)
    | InvalidEncodedString
    | CannotDecode(chunk: Text)

  /** A code point not met before whose code another one already holds. */
  ghost predicate Clash(h: Hash, keys: seq<CodePoint>, c: CodePoint) {
    c !in keys && exists k :: k in keys && h(k) == h(c)
  }

  /** The loops throw on the NUL code point and on a clash. */
  ghost predicate Refused(h: Hash, keys: seq<CodePoint>, c: CodePoint) {
    c == 0 || Clash(h, keys, c)
  }

  function Note(keys: seq<CodePoint>, c: CodePoint): seq<CodePoint> {
    if c in keys then keys else keys + [c]
  }

  /** What is thrown on a refused code point, read at `position`. */
  ghost predicate IsFault(h: Hash, keys: seq<CodePoint>, c: CodePoint, position: nat, error: Error) {
    if c == 0 then error == InvalidCharacter(position)
    else
      Clash(h, keys, c) && error.Collision? && error.codePoint == c
      && error.known in keys && h(error.known) == h(c)
  }

  datatype Progress = Progress(keys: seq<CodePoint>, rest: seq<CodePoint>)

  /** Meeting code points one after the other, up to the first refused one; `rest` starts there. */
  ghost function Absorb(h: Hash, keys: seq<CodePoint>, cs: seq<CodePoint>): Progress
    decreases |cs|
  {
    if cs == [] || Refused(h, keys, cs[0]) then Progress(keys, cs)
    else Absorb(h, Note(keys, cs[0]), cs[1..])
  }

  ghost predicate Distinct(keys: seq<CodePoint>) {
    forall i, j :: 0 <= i < j < |keys| ==> keys[i] != keys[j]
  }

  ghost predicate InjectiveOn(h: Hash, s: set<CodePoint>) {
    forall a, b :: a in s && b in s && h(a) == h(b) ==> a == b
  }

  function Members(keys: seq<CodePoint>): set<CodePoint> {
    set k | k in keys
  }

  /** What holds of the remembered keys in every reachable state. */
  ghost predicate Sound(h: Hash, keys: seq<CodePoint>) {
    Distinct(keys) && 0 !in keys && InjectiveOn(h, Members(keys))
  }

  /** The first occurrence of each code point, after those already there. */
  function Union(keys: seq<CodePoint>, cs: seq<CodePoint>): seq<CodePoint>
    decreases |cs|
  {
    if cs == [] then keys else Union(Note(keys, cs[0]), cs[1..])
  }

  function Encode(h: Hash, cs: seq<CodePoint>): (e: Text)
    ensures |e| == 8 * |cs| && |e| % 8 == 0
  {
    if cs == [] then [] else h(cs[0]) + Encode(h, cs[1..])
  }

  /** The table of codes. */
  ghost function Codes(h: Hash, keys: seq<CodePoint>): map<CodePoint, Code> {
    map k | k in keys :: h(k)
  }

  /** The table from codes back to code points. */
  ghost function Inverse(h: Hash, keys: seq<CodePoint>): map<Text, CodePoint> {
    if keys == [] then map[]
    else Inverse(h, keys[..|keys| - 1])[h(keys[|keys| - 1]) := keys[|keys| - 1]]
  }

  /** The code points of the whole 8-unit chunks of a string. */
  function DecodeChunks(inverse: map<Text, CodePoint>, e: Text): Result<seq<CodePoint>, Error> {
    if |e| < 8 then Ok([])
    else if e[..8] !in inverse || inverse[e[..8]] == 0 then
      Err(CannotDecode(e[..8]))
    else
      match DecodeChunks(inverse, e[8..])
      case Err(error) => Err(error)
      case Ok(cs) => Ok([inverse[e[..8]]] + cs)
  }

  function Decrypt(inverse: map<Text, CodePoint>, e: Text): Result<Text, Error> {
    if |e| % 8 != 0 then Err(InvalidEncodedString)
    else
      match DecodeChunks(inverse, e)
      case Err(error) => Err(error)
      case Ok(cs) => Ok(Join(cs))
  }

  // ----- what meeting code points does to the memo

  /** Entering a new code point in both tables keeps them exact inverses. */
  lemma TablesExtend(h: Hash, keys: seq<CodePoint>, c: CodePoint)
    requires Sound(h, keys) && c !in keys && !Refused(h, keys, c)
    ensures Sound(h, keys + [c])
    ensures Codes(h, keys + [c]) == Codes(h, keys)[c := h(c)]
    ensures Inverse(h, keys + [c]) == Inverse(h, keys)[h(c) := c]
  {
    NoteSound(h, keys, c);
    assert (keys + [c])[..|keys|] == keys;
  }

  /** The inverse table holds the code of every key, and nothing else. */
  lemma {:induction false} InverseTable(h: Hash, keys: seq<CodePoint>)
    requires Sound(h, keys)
    ensures forall t :: t in Inverse(h, keys) ==> Inverse(h, keys)[t] in keys && h(Inverse(h, keys)[t]) == t
    ensures forall k :: k in keys ==> h(k) in Inverse(h, keys) && Inverse(h, keys)[h(k)] == k
  {
    if keys != [] {
      var front, last := keys[..|keys| - 1], keys[|keys| - 1];
      assert keys == front + [last];
      assert Members(front) <= Members(keys);
      InverseTable(h, front);
      assert last in Members(keys) && forall k :: k in front ==> k in Members(keys);
    }
  }

  /** A new code point clashes exactly when the inverse table has its code already. */
  lemma ClashIsInTable(h: Hash, keys: seq<CodePoint>, c: CodePoint)
    requires Sound(h, keys) && c !in keys
    ensures Clash(h, keys, c) <==> h(c) in Inverse(h, keys)
    ensures Clash(h, keys, c) ==>
              Inverse(h, keys)[h(c)] in keys && h(Inverse(h, keys)[h(c)]) == h(c)
  {
    InverseTable(h, keys);
  }

  lemma DecodeStep(inverse: map<Text, CodePoint>, e: Text, c: CodePoint)
    requires |e| >= 8
    requires e[..8] in inverse && inverse[e[..8]] == c && c != 0
    ensures match DecodeChunks(inverse, e[8..])
            case Err(error) => DecodeChunks(inverse, e) == Err(error)
            case Ok(cs) => DecodeChunks(inverse, e) == Ok([c] + cs)
                           && Join([c] + cs) == FromCodePoint(c) + Join(cs)
  {
  }

  lemma EncodeStep(h: Hash, done: Text, c: CodePoint, rest: seq<CodePoint>)
    ensures done + Encode(h, [c] + rest) == done + h(c) + Encode(h, rest)
  {
    assert ([c] + rest)[1..] == rest;
  }

  lemma AbsorbStep(h: Hash, keys: seq<CodePoint>, c: CodePoint, rest: seq<CodePoint>)
    ensures Refused(h, keys, c) ==> Absorb(h, keys, [c] + rest) == Progress(keys, [c] + rest)
    ensures !Refused(h, keys, c) ==> Absorb(h, keys, [c] + rest) == Absorb(h, Note(keys, c), rest)
  {
    assert ([c] + rest)[1..] == rest;
  }

  lemma CodePointsStep(s: Text, i: nat)
    requires i < |s|
    ensures var c := CodePointAt(s, i);
            CodePoints(s[i..]) == [c] + CodePoints(s[i + Width(c)..])
    ensures |Join(CodePoints(s[i..]))| == |s| - i
  {
    var c := CodePointAt(s, i);
    assert CodePointAt(s[i..], 0) == c && s[i..][Width(c)..] == s[i + Width(c)..];
    JoinCodePoints(s[i..]);
  }

  lemma {:induction false} AbsorbSound(h: Hash, keys: seq<CodePoint>, cs: seq<CodePoint>)
    requires Sound(h, keys)
    ensures var p := Absorb(h, keys, cs);
            Sound(h, p.keys) && keys <= p.keys && (p.rest != [] ==> Refused(h, p.keys, p.rest[0]))
    decreases |cs|
  {
    if cs != [] && !Refused(h, keys, cs[0]) {
      NoteSound(h, keys, cs[0]);
      AbsorbSound(h, Note(keys, cs[0]), cs[1..]);
    }
  }

  lemma {:induction false} AbsorbIsUnion(h: Hash, keys: seq<CodePoint>, cs: seq<CodePoint>)
    ensures var p := Absorb(h, keys, cs);
            && |p.rest| <= |cs| && p.rest == cs[|cs| - |p.rest|..]
            && p.keys == Union(keys, cs[..|cs| - |p.rest|])
    decreases |cs|
  {
    if cs == [] || Refused(h, keys, cs[0]) {
      assert cs[..0] == [] && cs[0..] == cs;
    } else {
      AbsorbIsUnion(h, Note(keys, cs[0]), cs[1..]);
      var n := |cs| - |Absorb(h, keys, cs).rest|;
      assert cs[..n][1..] == cs[1..][..n - 1];
    }
  }

  /** In every reachable state, a throw part-way through a string included: keys stay distinct and
      collision-free, old ones stay in front, and the new ones are exactly those met before the
      refused code point. */
  lemma AbsorbKeepsSound(h: Hash, keys: seq<CodePoint>, cs: seq<CodePoint>)
    requires Sound(h, keys)
    ensures var p := Absorb(h, keys, cs);
            && Sound(h, p.keys)
            && keys <= p.keys
            && |p.rest| <= |cs| && p.rest == cs[|cs| - |p.rest|..]
            && (forall c :: c in p.keys <==> c in keys || c in cs[..|cs| - |p.rest|])
            && (p.rest != [] ==> Refused(h, p.keys, p.rest[0]))
  {
    var p := Absorb(h, keys, cs);
    AbsorbSound(h, keys, cs);
    AbsorbIsUnion(h, keys, cs);
    var met := cs[..|cs| - |p.rest|];
    UnionMembers(keys, met);
    assert forall c :: c in p.keys <==> c in keys || c in met;
  }

  lemma NoteSound(h: Hash, keys: seq<CodePoint>, c: CodePoint)
    requires Sound(h, keys) && !Refused(h, keys, c)
    ensures Sound(h, Note(keys, c)) && keys <= Note(keys, c)
    ensures Members(Note(keys, c)) == Members(keys) + {c}
  {
    assert Members(Note(keys, c)) == Members(keys) + {c};
  }

  /** All of a string is met exactly when it has no NUL and no two code points, met or known, share
      a code. */
  lemma {:induction false} AbsorbsAllExactly(h: Hash, keys: seq<CodePoint>, cs: seq<CodePoint>)
    requires Sound(h, keys)
    ensures Absorb(h, keys, cs).rest == [] <==>
            0 !in cs && InjectiveOn(h, Members(keys) + Members(cs))
    decreases |cs|
  {
    if cs == [] {
      assert Members(keys) + Members(cs) == Members(keys);
    } else if Refused(h, keys, cs[0]) {
      if Clash(h, keys, cs[0]) {
        var k :| k in keys && h(k) == h(cs[0]);
        assert k in Members(keys) + Members(cs) && cs[0] in Members(keys) + Members(cs);
      }
    } else {
      var next := Note(keys, cs[0]);
      NoteSound(h, keys, cs[0]);
      assert Members(cs) == {cs[0]} + Members(cs[1..]) by { assert cs == [cs[0]] + cs[1..]; }
      assert Members(next) + Members(cs[1..]) == Members(keys) + Members(cs);
      AbsorbsAllExactly(h, next, cs[1..]);
    }
  }

  lemma AbsorbedIsUnion(h: Hash, keys: seq<CodePoint>, cs: seq<CodePoint>)
    requires Absorb(h, keys, cs).rest == []
    ensures Absorb(h, keys, cs).keys == Union(keys, cs)
  {
    AbsorbIsUnion(h, keys, cs);
    assert cs[..|cs|] == cs;
  }

  lemma {:induction false} AbsorbKnown(h: Hash, keys: seq<CodePoint>, cs: seq<CodePoint>)
    requires 0 !in keys && forall c :: c in cs ==> c in keys
    ensures Absorb(h, keys, cs) == Progress(keys, [])
    decreases |cs|
  {
    if cs != [] {
      AbsorbKnown(h, keys, cs[1..]);
    }
  }

  lemma {:induction false} UnionAppend(keys: seq<CodePoint>, a: seq<CodePoint>, b: seq<CodePoint>)
    ensures Union(keys, a + b) == Union(Union(keys, a), b)
    decreases |a|
  {
    if a == [] {
      assert a + b == b;
    } else {
      assert (a + b)[1..] == a[1..] + b;
      UnionAppend(Note(keys, a[0]), a[1..], b);
    }
  }

  lemma {:induction false} UnionMember(keys: seq<CodePoint>, cs: seq<CodePoint>, c: CodePoint)
    ensures c in Union(keys, cs) <==> c in keys || c in cs
    decreases |cs|
  {
    if cs != [] {
      UnionMember(Note(keys, cs[0]), cs[1..], c);
      assert c in cs <==> c == cs[0] || c in cs[1..];
    }
  }

  lemma {:induction false} UnionExtends(keys: seq<CodePoint>, cs: seq<CodePoint>)
    ensures keys <= Union(keys, cs)
    ensures Distinct(keys) ==> Distinct(Union(keys, cs))
    decreases |cs|
  {
    if cs != [] {
      UnionExtends(Note(keys, cs[0]), cs[1..]);
    }
  }

  lemma UnionMembers(keys: seq<CodePoint>, cs: seq<CodePoint>)
    ensures keys <= Union(keys, cs)
    ensures forall c :: c in Union(keys, cs) <==> c in keys || c in cs
    ensures Distinct(keys) ==> Distinct(Union(keys, cs))
  {
    UnionExtends(keys, cs);
    forall c ensures c in Union(keys, cs) <==> c in keys || c in cs {
      UnionMember(keys, cs, c);
    }
  }

  lemma {:induction false} UnionDistinct(a: seq<CodePoint>, b: seq<CodePoint>)
    requires Distinct(a + b)
    ensures Union(a, b) == a + b
    decreases |b|
  {
    if b == [] {
      assert a + b == a;
    } else {
      assert b[0] !in a by { assert (a + b)[|a|] == b[0]; assert forall i :: 0 <= i < |a| ==> (a + b)[i] == a[i]; }
      assert (a + [b[0]]) + b[1..] == a + b;
      UnionDistinct(a + [b[0]], b[1..]);
    }
  }

  // ----- encoding and decoding undo each other

  lemma EncodeFront(h: Hash, cs: seq<CodePoint>)
    requires cs != []
    ensures Encode(h, cs)[..8] == h(cs[0]) && Encode(h, cs)[8..] == Encode(h, cs[1..])
  {
  }

  /** Chunk i of an encoding is the code of code point i. */
  lemma {:induction false} EncodeAt(h: Hash, cs: seq<CodePoint>, i: nat)
    requires i < |cs|
    ensures Encode(h, cs)[8 * i..8 * i + 8] == h(cs[i])
    decreases |cs|
  {
    EncodeFront(h, cs);
    var e, rest := Encode(h, cs), Encode(h, cs[1..]);
    if i > 0 {
      EncodeAt(h, cs[1..], i - 1);
      assert e[8 * i..8 * i + 8] == rest[8 * (i - 1)..8 * (i - 1) + 8];
    }
  }

  lemma {:induction false} DecodeEncode(h: Hash, keys: seq<CodePoint>, cs: seq<CodePoint>)
    requires Sound(h, keys) && forall c :: c in cs ==> c in keys
    ensures DecodeChunks(Inverse(h, keys), Encode(h, cs)) == Ok(cs)
  {
    if cs != [] {
      DecodeEncode(h, keys, cs[1..]);
      EncodeFront(h, cs);
      InverseTable(h, keys);
      assert cs[0] in keys && cs == [cs[0]] + cs[1..];
      DecodeStep(Inverse(h, keys), Encode(h, cs), cs[0]);
    }
  }

  lemma {:induction false} EncodeDecode(h: Hash, keys: seq<CodePoint>, e: Text, cs: seq<CodePoint>)
    requires Sound(h, keys) && |e| % 8 == 0
    requires DecodeChunks(Inverse(h, keys), e) == Ok(cs)
    ensures Encode(h, cs) == e && forall c :: c in cs ==> c in keys
    decreases |e|
  {
    if e != [] {
      InverseTable(h, keys);
      EncodeDecode(h, keys, e[8..], cs[1..]);
      assert e == e[..8] + e[8..];
    }
  }

  function Chunk(e: Text, i: nat): Text
    requires 8 * i + 8 <= |e|
  {
    e[8 * i..8 * i + 8]
  }

  /** Whether a chunk is the code of a key. */
  predicate IsChunkOf(h: Hash, keys: seq<CodePoint>, chunk: Text) {
    exists k :: k in keys && h(k) == chunk
  }

  lemma ChunkKnown(h: Hash, keys: seq<CodePoint>, chunk: Text)
    requires Sound(h, keys)
    ensures IsChunkOf(h, keys, chunk) <==> chunk in Inverse(h, keys) && Inverse(h, keys)[chunk] != 0
  {
    InverseTable(h, keys);
  }

  ghost predicate AllKnown(h: Hash, keys: seq<CodePoint>, e: Text, n: nat)
    requires 8 * n <= |e|
  {
    forall j: nat :: j < n ==> IsChunkOf(h, keys, Chunk(e, j))
  }

  lemma AllKnownShift(h: Hash, keys: seq<CodePoint>, e: Text, n: nat)
    requires 8 * n + 8 <= |e| && IsChunkOf(h, keys, e[..8]) && AllKnown(h, keys, e[8..], n)
    ensures AllKnown(h, keys, e, n + 1)
  {
    forall j: nat | j < n + 1 ensures IsChunkOf(h, keys, Chunk(e, j)) {
      if j == 0 {
        assert Chunk(e, 0) == e[..8];
      } else {
        assert Chunk(e, j) == Chunk(e[8..], j - 1);
      }
    }
  }

  lemma {:induction false} DecodeFails(h: Hash, keys: seq<CodePoint>, e: Text, error: Error) returns (i: nat)
    requires Sound(h, keys) && |e| % 8 == 0 && DecodeChunks(Inverse(h, keys), e) == Err(error)
    ensures 8 * i + 8 <= |e| && error == CannotDecode(Chunk(e, i))
    ensures !IsChunkOf(h, keys, Chunk(e, i)) && AllKnown(h, keys, e, i)
    decreases |e|
  {
    ChunkKnown(h, keys, e[..8]);
    if IsChunkOf(h, keys, e[..8]) {
      DecodeStep(Inverse(h, keys), e, Inverse(h, keys)[e[..8]]);
      var k := DecodeFails(h, keys, e[8..], error);
      i := k + 1;
      assert Chunk(e, i) == Chunk(e[8..], k);
      AllKnownShift(h, keys, e, k);
    } else {
      i := 0;
    }
  }

  /** Decrypting fails for the length exactly when that is no multiple of 8, and otherwise at the
      first chunk that is the code of no key; else it gives the text of the keys whose codes the
      chunks are. */
  lemma DecryptExactly(h: Hash, keys: seq<CodePoint>, e: Text)
    requires Sound(h, keys)
    ensures Decrypt(Inverse(h, keys), e) == Err(InvalidEncodedString) <==> |e| % 8 != 0
    ensures match Decrypt(Inverse(h, keys), e)
            case Ok(text) =>
              exists cs :: text == Join(cs) && |e| == 8 * |cs|
                && forall i :: 0 <= i < |cs| ==> cs[i] in keys && h(cs[i]) == Chunk(e, i)
            case Err(error) =>
              |e| % 8 == 0 ==>
                exists i: nat :: 8 * i + 8 <= |e| && error == CannotDecode(Chunk(e, i))
                  && !IsChunkOf(h, keys, Chunk(e, i)) && AllKnown(h, keys, e, i)
  {
    if |e| % 8 == 0 {
      match DecodeChunks(Inverse(h, keys), e) {
        case Err(error) => var _ := DecodeFails(h, keys, e, error);
        case Ok(cs) =>
          EncodeDecode(h, keys, e, cs);
          forall i | 0 <= i < |cs| ensures h(cs[i]) == Chunk(e, i) {
            EncodeAt(h, cs, i);
          }
      }
    }
  }

  lemma DecryptDecoded(inverse: map<Text, CodePoint>, e: Text, cs: seq<CodePoint>)
    requires |e| % 8 == 0 && DecodeChunks(inverse, e) == Ok(cs)
    ensures Decrypt(inverse, e) == Ok(Join(cs))
  {
  }

  lemma KnownTextDecrypts(h: Hash, keys: seq<CodePoint>, s: Text)
    requires Sound(h, keys) && forall c :: c in CodePoints(s) ==> c in keys
    ensures Decrypt(Inverse(h, keys), Encode(h, CodePoints(s))) == Ok(s)
  {
    DecodeEncode(h, keys, CodePoints(s));
    JoinCodePoints(s);
    DecryptDecoded(Inverse(h, keys), Encode(h, CodePoints(s)), CodePoints(s));
  }

  /** Every string that `encrypt` accepts comes back unit for unit, at 8 units a code point. */
  lemma RoundTrip(h: Hash, keys: seq<CodePoint>, s: Text)
    requires Sound(h, keys)
    requires Absorb(h, keys, CodePoints(s)).rest == []
    ensures var known := Absorb(h, keys, CodePoints(s)).keys;
            Sound(h, known) && Decrypt(Inverse(h, known), Encode(h, CodePoints(s))) == Ok(s)
    ensures |Encode(h, CodePoints(s))| == 8 * |CodePoints(s)|
  {
    var cs := CodePoints(s);
    AbsorbKeepsSound(h, keys, cs);
    assert cs[..|cs|] == cs;
    KnownTextDecrypts(h, Absorb(h, keys, cs).keys, s);
  }

  /** An old ciphertext keeps its meaning as long as no key is lost. */
  lemma DecryptStable(h: Hash, keys: seq<CodePoint>, more: seq<CodePoint>, e: Text)
    requires Sound(h, keys) && Sound(h, more)
    requires forall k :: k in keys ==> k in more
    requires Decrypt(Inverse(h, keys), e).Ok?
    ensures Decrypt(Inverse(h, more), e) == Decrypt(Inverse(h, keys), e)
  {
    var cs := DecodeChunks(Inverse(h, keys), e).value;
    EncodeDecode(h, keys, e, cs);
    DecodeEncode(h, more, cs);
    DecryptDecoded(Inverse(h, more), e, cs);
  }

  /** A decoded text encodes back to the very ciphertext it came from, with nothing new remembered,
      exactly when no lone high surrogate was decoded directly before a lone low one. */
  lemma ReverseRoundTrip(h: Hash, keys: seq<CodePoint>, e: Text)
    requires Sound(h, keys) && |e| % 8 == 0
    requires DecodeChunks(Inverse(h, keys), e).Ok?
    ensures var cs := DecodeChunks(Inverse(h, keys), e).value;
            var again := CodePoints(Join(cs));
            && Decrypt(Inverse(h, keys), e) == Ok(Join(cs))
            && (Separate(cs) <==> Encode(h, again) == e)
            && (Separate(cs) ==> Absorb(h, keys, again) == Progress(keys, []))
  {
    var cs := DecodeChunks(Inverse(h, keys), e).value;
    EncodeDecode(h, keys, e, cs);
    CodePointsJoin(cs);
    if Separate(cs) {
      AbsorbKnown(h, keys, cs);
    }
  }

  /** On one instance, equal encodings come from equal texts. */
  lemma EncodingInjective(h: Hash, keys: seq<CodePoint>, s: Text, t: Text)
    requires Sound(h, keys)
    requires forall c :: c in CodePoints(s) || c in CodePoints(t) ==> c in keys
    ensures Encode(h, CodePoints(s)) == Encode(h, CodePoints(t)) <==> s == t
  {
    if Encode(h, CodePoints(s)) == Encode(h, CodePoints(t)) {
      DecodeEncode(h, keys, CodePoints(s));
      DecodeEncode(h, keys, CodePoints(t));
      JoinCodePoints(s);
      JoinCodePoints(t);
    }
  }

  // ----- saving the keys as text and restoring them

  /** What a new encryptor with the same hash remembers after reading saved mappings. */
  ghost function Restore(h: Hash, mappings: Text): Progress {
    Absorb(h, [], Scan(mappings))
  }

  ghost predicate IsKeyOrLowHalf(keys: seq<CodePoint>, c: CodePoint) {
    c in keys || exists k :: k in keys && IsSupplementary(k) && c == LowHalf(k)
  }

  lemma RestoreMembers(h: Hash, mappings: Text)
    requires Restore(h, mappings).rest == []
    ensures Sound(h, Restore(h, mappings).keys)
    ensures forall c :: c in Restore(h, mappings).keys <==> c in Scan(mappings)
  {
    AbsorbKeepsSound(h, [], Scan(mappings));
    assert Scan(mappings)[..|Scan(mappings)|] == Scan(mappings);
  }

  lemma NoNulAdded(cs: seq<CodePoint>)
    ensures 0 in Expand(cs) <==> 0 in cs
  {
    ExpandMembers(cs, 0);
    forall c | c in cs && IsSupplementary(c) ensures LowHalf(c) != 0 {
      HalvesCombine(c);
    }
  }

  /** A new encryptor constructs from a saved text exactly when the text has no NUL and no two of its
      code points, the low halves of its pairs included, share a code. */
  lemma RestoreConstructsExactly(h: Hash, saved: Text)
    ensures Restore(h, saved).rest == [] <==>
            0 !in CodePoints(saved) && InjectiveOn(h, Members(Expand(CodePoints(saved))))
  {
    ScanCodePoints(saved);
    NoNulAdded(CodePoints(saved));
    AbsorbsAllExactly(h, [], Scan(saved));
    assert Members([]) + Members(Scan(saved)) == Members(Scan(saved));
  }

  /** So saved keys can be restored exactly when the low halves that come in clash with nothing. */
  lemma SavedKeysConstructExactly(h: Hash, keys: seq<CodePoint>)
    requires Sound(h, keys) && Separate(keys)
    ensures Restore(h, Join(keys)).rest == [] <==> InjectiveOn(h, Members(Expand(keys)))
  {
    CodePointsJoin(keys);
    RestoreConstructsExactly(h, Join(keys));
  }

  /** Restoring saved keys gives back exactly those keys and the low halves of the supplementary
      ones, whenever no lone high surrogate was saved directly before a lone low one. */
  lemma RestoreAddsLowHalves(h: Hash, keys: seq<CodePoint>)
    requires Sound(h, keys) && Separate(keys)
    requires Restore(h, Join(keys)).rest == []
    ensures forall c :: c in Restore(h, Join(keys)).keys <==> IsKeyOrLowHalf(keys, c)
  {
    RestoreMembers(h, Join(keys));
    ScanJoin(keys);
    forall c ensures c in Expand(keys) <==> IsKeyOrLowHalf(keys, c) {
      ExpandMembers(keys, c);
    }
  }

  /** Restoring loses no key exactly when no lone high surrogate was saved directly before a lone
      low one. */
  lemma RestoreKeepsKeysExactly(h: Hash, keys: seq<CodePoint>)
    requires Sound(h, keys)
    requires Restore(h, Join(keys)).rest == []
    ensures (forall k :: k in keys ==> k in Restore(h, Join(keys)).keys) <==> Separate(keys)
  {
    RestoreMembers(h, Join(keys));
    if Separate(keys) {
      RestoreAddsLowHalves(h, keys);
    } else {
      var i :| 0 <= i < |keys| - 1 && IsHigh(keys[i]) && IsLow(keys[i + 1]);
      if keys[i] in Scan(Join(keys)) {
        HighReadBack(keys, keys[i]);
        assert false;
      }
      assert keys[i] in keys;
    }
  }

  /** A ciphertext of a key that the other memo lacks is read differently there. */
  lemma LostKeyMisread(h: Hash, keys: seq<CodePoint>, other: seq<CodePoint>, k: CodePoint)
    requires Sound(h, keys) && Sound(h, other) && k in keys && k !in other
    ensures Decrypt(Inverse(h, keys), Encode(h, [k])) == Ok(Join([k]))
    ensures Decrypt(Inverse(h, other), Encode(h, [k])) != Ok(Join([k]))
  {
    var e := Encode(h, [k]);
    DecodeEncode(h, keys, [k]);
    DecryptDecoded(Inverse(h, keys), e, [k]);
    EncodeFront(h, [k]);
    assert e == h(k);
    InverseTable(h, other);
    if e in Inverse(h, other) && Inverse(h, other)[e] != 0 {
      var j := Inverse(h, other)[e];
      DecodeStep(Inverse(h, other), e, j);
      assert e[8..] == [] && [j] + [] == [j];
      DecryptDecoded(Inverse(h, other), e, [j]);
      JoinOne(j);
      JoinOne(k);
    }
  }

  lemma JoinOne(c: CodePoint)
    ensures Join([c]) == FromCodePoint(c)
    ensures forall d :: FromCodePoint(d) == FromCodePoint(c) ==> d == c
  {
    forall d | FromCodePoint(d) == FromCodePoint(c) ensures d == c {
      if IsSupplementary(d) { HalvesCombine(d); }
      if IsSupplementary(c) { HalvesCombine(c); }
    }
  }

  /** So the restored encryptor decrypts every old ciphertext to the same text exactly then. */
  lemma RestoreDecryptsExactly(h: Hash, keys: seq<CodePoint>)
    requires Sound(h, keys)
    requires Restore(h, Join(keys)).rest == []
    ensures Sound(h, Restore(h, Join(keys)).keys)
    ensures var restored := Restore(h, Join(keys)).keys;
            (forall e :: Decrypt(Inverse(h, keys), e).Ok? ==>
               Decrypt(Inverse(h, restored), e) == Decrypt(Inverse(h, keys), e))
            <==> Separate(keys)
  {
    RestoreMembers(h, Join(keys));
    RestoreKeepsKeysExactly(h, keys);
    var restored := Restore(h, Join(keys)).keys;
    if Separate(keys) {
      forall e | Decrypt(Inverse(h, keys), e).Ok?
        ensures Decrypt(Inverse(h, restored), e) == Decrypt(Inverse(h, keys), e)
      {
        DecryptStable(h, keys, restored, e);
      }
    } else {
      var k :| k in keys && k !in restored;
      LostKeyMisread(h, keys, restored, k);
    }
  }

  // ----- restoring what was restored

  ghost predicate LowHalfFollowsAt(keys: seq<CodePoint>, i: nat)
    requires i < |keys|
  {
    IsSupplementary(keys[i]) ==>
      LowHalf(keys[i]) in keys[..i] || (i + 1 < |keys| && keys[i + 1] == LowHalf(keys[i]))
  }

  /** The low half of each supplementary key is already there or comes next. */
  ghost predicate LowHalvesFollow(keys: seq<CodePoint>) {
    forall i :: 0 <= i < |keys| ==> LowHalfFollowsAt(keys, i)
  }

  lemma LowHalvesFollowNote(keys: seq<CodePoint>, c: CodePoint)
    requires LowHalvesFollow(keys)
    ensures !IsSupplementary(c) ==> LowHalvesFollow(Note(keys, c))
    ensures IsSupplementary(c) ==> LowHalvesFollow(Note(Note(keys, c), LowHalf(c)))
  {
    var next := if IsSupplementary(c) then Note(Note(keys, c), LowHalf(c)) else Note(keys, c);
    assert keys <= next;
    if IsSupplementary(c) { HalvesCombine(c); }
    forall i | 0 <= i < |next|
      ensures LowHalfFollowsAt(next, i)
    {
      if i < |keys| {
        assert LowHalfFollowsAt(keys, i);
        assert next[i] == keys[i] && next[..i] == keys[..i];
        assert i + 1 < |keys| ==> next[i + 1] == keys[i + 1];
      } else if IsSupplementary(next[i]) {
        assert next[i] == c && next[..i] == keys;
      }
    }
  }

  lemma {:induction false} UnionExpandFollows(keys: seq<CodePoint>, cs: seq<CodePoint>)
    requires LowHalvesFollow(keys)
    ensures LowHalvesFollow(Union(keys, Expand(cs)))
    decreases |cs|
  {
    if cs != [] {
      LowHalvesFollowNote(keys, cs[0]);
      UnionExpandFront(keys, cs);
      var next := if IsSupplementary(cs[0]) then Note(Note(keys, cs[0]), LowHalf(cs[0]))
                  else Note(keys, cs[0]);
      UnionExpandFollows(next, cs[1..]);
    }
  }

  lemma UnionExpandFront(keys: seq<CodePoint>, cs: seq<CodePoint>)
    requires cs != []
    ensures IsSupplementary(cs[0]) ==>
              Union(keys, Expand(cs))
              == Union(Note(Note(keys, cs[0]), LowHalf(cs[0])), Expand(cs[1..]))
    ensures !IsSupplementary(cs[0]) ==>
              Union(keys, Expand(cs)) == Union(Note(keys, cs[0]), Expand(cs[1..]))
  {
    var e := Expand(cs);
    if IsSupplementary(cs[0]) {
      assert e[1..][1..] == Expand(cs[1..]) && e[1..][0] == LowHalf(cs[0]);
    } else {
      assert e[1..] == Expand(cs[1..]);
    }
  }

  lemma NoteSeparate(keys: seq<CodePoint>, c: CodePoint)
    requires Separate(keys)
    requires keys != [] && IsHigh(keys[|keys| - 1]) ==> !IsLow(c)
    ensures Separate(Note(keys, c))
  {
  }

  /** What the next code points may be for nothing to fuse. */
  ghost predicate MayFollow(keys: seq<CodePoint>, cs: seq<CodePoint>) {
    && (keys != [] && cs != [] && IsHigh(keys[|keys| - 1]) ==> !IsLow(cs[0]))
    && forall c :: c in cs && !IsLow(c) ==> c !in keys
  }

  lemma MayFollowStep(keys: seq<CodePoint>, cs: seq<CodePoint>)
    requires cs != [] && Separate(cs) && Distinct(cs) && MayFollow(keys, cs)
    ensures !IsSupplementary(cs[0]) ==> MayFollow(Note(keys, cs[0]), cs[1..])
    ensures IsSupplementary(cs[0]) ==> MayFollow(Note(Note(keys, cs[0]), LowHalf(cs[0])), cs[1..])
  {
    SeparateTail(cs);
    var c, tail := cs[0], cs[1..];
    forall x | x in tail ensures x in cs && x != c {
      var i :| 0 <= i < |tail| && tail[i] == x;
      assert cs[i + 1] == x;
    }
    if IsSupplementary(c) { HalvesCombine(c); }
  }

  lemma {:induction false} UnionExpandSeparate(keys: seq<CodePoint>, cs: seq<CodePoint>)
    requires Separate(keys) && Separate(cs) && Distinct(cs) && MayFollow(keys, cs)
    ensures Separate(Union(keys, Expand(cs)))
    decreases |cs|
  {
    if cs != [] {
      var c, tail := cs[0], cs[1..];
      UnionExpandFront(keys, cs);
      MayFollowStep(keys, cs);
      SeparateTail(cs);
      NoteSeparate(keys, c);
      if IsSupplementary(c) {
        HalvesCombine(c);
        NoteSeparate(Note(keys, c), LowHalf(c));
        UnionExpandSeparate(Note(Note(keys, c), LowHalf(c)), tail);
      } else {
        UnionExpandSeparate(Note(keys, c), tail);
      }
    }
  }

  lemma AbsorbPair(h: Hash, keys: seq<CodePoint>, c: CodePoint, low: CodePoint, rest: seq<CodePoint>)
    requires !Refused(h, keys, c) && !Refused(h, Note(keys, c), low)
    ensures Absorb(h, keys, [c, low] + rest) == Absorb(h, Note(Note(keys, c), low), rest)
  {
    var cs := [c, low] + rest;
    assert cs[1..][0] == low && cs[1..][1..] == rest;
  }

  lemma {:induction false} AbsorbExpandedKeys(h: Hash, keys: seq<CodePoint>, i: nat)
    requires Sound(h, keys) && LowHalvesFollow(keys) && i <= |keys|
    ensures Absorb(h, keys[..i], Expand(keys[i..])) == Progress(keys, [])
    decreases |keys| - i
  {
    if i == |keys| {
      assert keys[..i] == keys;
    } else {
      NextKeyAccepted(h, keys, i);
      assert keys[i..][1..] == keys[i + 1..];
      if IsSupplementary(keys[i]) {
        HalvesCombine(keys[i]);
        AbsorbExpandedPair(h, keys, i);
        if LowHalf(keys[i]) in keys[..i] {
          AbsorbExpandedKeys(h, keys, i + 1);
        } else {
          AbsorbExpandedKeys(h, keys, i + 2);
        }
      } else {
        assert Expand(keys[i..])[1..] == Expand(keys[i + 1..]);
        AbsorbExpandedKeys(h, keys, i + 1);
      }
    }
  }

  lemma AbsorbExpandedPair(h: Hash, keys: seq<CodePoint>, i: nat)
    requires Sound(h, keys) && LowHalvesFollow(keys) && i < |keys| && IsSupplementary(keys[i])
    ensures LowHalf(keys[i]) in keys[..i] ==>
              Absorb(h, keys[..i], Expand(keys[i..]))
              == Absorb(h, keys[..i + 1], Expand(keys[i + 1..]))
    ensures LowHalf(keys[i]) !in keys[..i] ==>
              i + 1 < |keys| && Absorb(h, keys[..i], Expand(keys[i..]))
                                == Absorb(h, keys[..i + 2], Expand(keys[i + 2..]))
  {
    var low := LowHalf(keys[i]);
    assert LowHalfFollowsAt(keys, i);
    HalvesCombine(keys[i]);
    NextKeyAccepted(h, keys, i);
    assert keys[i..][1..] == keys[i + 1..];
    if low in keys[..i] {
      assert low in keys[..i + 1];
      AbsorbPair(h, keys[..i], keys[i], low, Expand(keys[i + 1..]));
    } else {
      NextKeyAccepted(h, keys, i + 1);
      AbsorbPair(h, keys[..i], keys[i], low, Expand(keys[i + 1..]));
      assert keys[i + 1..][1..] == keys[i + 2..];
      var rest := Expand(keys[i + 1..]);
      assert rest[0] == low && rest[1..] == Expand(keys[i + 2..]);
      assert keys[..i + 2][i + 1] == low;
    }
  }

  lemma NextKeyAccepted(h: Hash, keys: seq<CodePoint>, i: nat)
    requires Sound(h, keys) && i < |keys|
    ensures !Refused(h, keys[..i], keys[i]) && Note(keys[..i], keys[i]) == keys[..i + 1]
  {
    assert keys[i] in Members(keys);
    assert forall k :: k in keys[..i] ==> k in Members(keys);
  }

  lemma RestoredFollows(h: Hash, saved: Text)
    requires Restore(h, saved).rest == []
    ensures var restored := Restore(h, saved).keys;
            Sound(h, restored) && LowHalvesFollow(restored)
            && restored == Union([], Expand(CodePoints(saved)))
  {
    RestoreMembers(h, saved);
    ScanCodePoints(saved);
    AbsorbedIsUnion(h, [], Scan(saved));
    UnionExpandFollows([], CodePoints(saved));
  }

  /** Whatever text was restored, saving and restoring a second time changes nothing, not even the
      order of the keys, exactly when no lone high surrogate stands directly before a lone low one in
      the restored order. */
  lemma RestoreTwiceExactly(h: Hash, saved: Text)
    requires Restore(h, saved).rest == []
    ensures var restored := Restore(h, saved).keys;
            Restore(h, Join(restored)) == Progress(restored, []) <==> Separate(restored)
  {
    var restored := Restore(h, saved).keys;
    RestoredFollows(h, saved);
    if Separate(restored) {
      ScanJoin(restored);
      AbsorbExpandedKeys(h, restored, 0);
      assert restored[..0] == [] && restored[0..] == restored;
    } else if Restore(h, Join(restored)).rest == [] {
      RestoreKeepsKeysExactly(h, restored);
    }
  }

  /** In particular nothing changes when the first save had no such place. */
  lemma RestoreTwice(h: Hash, keys: seq<CodePoint>)
    requires Sound(h, keys) && Separate(keys)
    requires Restore(h, Join(keys)).rest == []
    ensures var restored := Restore(h, Join(keys)).keys;
            Separate(restored) && Restore(h, Join(restored)) == Progress(restored, [])
  {
    CodePointsJoin(keys);
    RestoredFollows(h, Join(keys));
    UnionExpandSeparate([], keys);
    RestoreTwiceExactly(h, Join(keys));
  }

  // ----- a string that leads to a loss

  /** Four units that read as a letter, a lone high surrogate, the letter again and a lone low one. */
  const LONE_HALVES: Text := [0x41, 0xD800, 0x41, 0xDC00]

  lemma LoneHalvesRead()
    ensures CodePoints(LONE_HALVES) == LONE_HALVES && Scan(LONE_HALVES) == LONE_HALVES
  {
    var s := LONE_HALVES;
    assert s[1..][1..] == [0x41, 0xDC00] && s[1..][1..][1..] == [0xDC00];
    assert s[1..] == [0xD800, 0x41, 0xDC00] && CodePointAt(s[1..], 0) == 0xD800;
    assert CodePoints([0xDC00]) == [0xDC00] && Scan([0xDC00]) == [0xDC00];
    assert CodePoints([0x41, 0xDC00]) == [0x41, 0xDC00] && Scan([0x41, 0xDC00]) == [0x41, 0xDC00];
    assert CodePoints(s[1..]) == s[1..] && Scan(s[1..]) == s[1..];
  }

  lemma LoneHalvesUnion()
    ensures Union([], LONE_HALVES) == [0x41, 0xD800, 0xDC00]
    ensures Members(LONE_HALVES) == {0x41, 0xD800, 0xDC00}
  {
    var s: seq<CodePoint> := LONE_HALVES;
    assert s[1..] == [0xD800, 0x41, 0xDC00] && s[1..][1..] == [0x41, 0xDC00];
    assert s[1..][1..][1..] == [0xDC00] && s[1..][1..][1..][1..] == [];
    assert Union([0x41, 0xD800], [0xDC00]) == Note([0x41, 0xD800], 0xDC00);
    assert Union([0x41, 0xD800], [0x41, 0xDC00]) == Union([0x41, 0xD800], [0xDC00]);
    assert Note([0x41], 0xD800) == [0x41, 0xD800];
  }

  lemma LoneHalvesAbsorbed(h: Hash)
    requires InjectiveOn(h, {0x41, 0xD800, 0xDC00})
    ensures Absorb(h, [], LONE_HALVES) == Progress([0x41, 0xD800, 0xDC00], [])
  {
    LoneHalvesUnion();
    assert Members([]) + Members(LONE_HALVES) == Members(LONE_HALVES);
    AbsorbsAllExactly(h, [], LONE_HALVES);
    AbsorbedIsUnion(h, [], LONE_HALVES);
  }

  /** A fresh encryptor that encodes this string, and one restored from it as raw mappings, both end
      with an order that is not separate; restored from the mappings it then saves, an encryptor
      lacks the lone high surrogate, whether it constructs or not. */
  lemma HighSurrogateLost(h: Hash)
    requires InjectiveOn(h, {0x41, 0xD800, 0xDC00})
    ensures var keys: seq<CodePoint> := [0x41, 0xD800, 0xDC00];
            && Absorb(h, [], CodePoints(LONE_HALVES)) == Progress(keys, [])
            && Restore(h, LONE_HALVES) == Progress(keys, [])
            && !Separate(keys)
            && 0xD800 in keys && 0xD800 !in Restore(h, Join(keys)).keys
  {
    LoneHalvesRead();
    LoneHalvesAbsorbed(h);
    var keys: seq<CodePoint> := [0x41, 0xD800, 0xDC00];
    assert IsHigh(keys[1]) && IsLow(keys[2]);
    var text := Join(keys);
    AbsorbKeepsSound(h, [], Scan(text));
    var met := Scan(text)[..|Scan(text)| - |Restore(h, text).rest|];
    if 0xD800 in met {
      assert 0xD800 in Scan(text);
      HighReadBack(keys, 0xD800);
      assert false;
    }
  }
}
