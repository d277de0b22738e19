/** The worker that syncs a message to the search index: it first writes the merged character
    mappings of the author to the database, then encodes the content. The cipher that the mappings
    pass through on their way is left out; `mappings` holds the plain text. */
module SyncWorker {
  import opened Domain
  import opened Wrappers
  import opened Utf16
  import opened KeyMemo
  import opened MessageEncryption

  /** The text that is written: the raw message when nothing was mapped before, and otherwise the
      distinct code points of the old mappings and the message, in order of first appearance. */
  function Merged(currentRawMappings: Text, rawMsgContent: Text): Text {
    if currentRawMappings != [] then
      Join(Union([], CodePoints(currentRawMappings + rawMsgContent)))
    else rawMsgContent
  }

  /** The members of `cs`, each once, in the order in which `cs` first has them. */
  ghost predicate FirstSeen(cs: seq<CodePoint>, order: seq<CodePoint>) {
    && Distinct(order)
    && (forall c :: c in order <==> c in cs)
    && forall n :: 0 <= n <= |cs| ==> SeenFirst(cs[..n], order)
  }

  /** What a first part of the text has makes up a first part of the order. */
  ghost predicate SeenFirst(part: seq<CodePoint>, order: seq<CodePoint>) {
    exists k :: 0 <= k <= |order| && forall c :: c in order[..k] <==> c in part
  }

  lemma UnionFirstSeen(cs: seq<CodePoint>)
    ensures FirstSeen(cs, Union([], cs))
  {
    UnionMembers([], cs);
    forall n | 0 <= n <= |cs| ensures SeenFirst(cs[..n], Union([], cs)) {
      assert cs == cs[..n] + cs[n..];
      UnionAppend([], cs[..n], cs[n..]);
      UnionMembers([], cs[..n]);
      UnionMembers(Union([], cs[..n]), cs[n..]);
      var first := Union([], cs[..n]);
      assert Union([], cs)[..|first|] == first;
    }
  }

  datatype SyncError = EncryptorNotFound | NoMappingRow | Refused(error: Error)

  class SyncDataToESWorker {
    var mappings: map<UserId, Text>

    method CreateOrUpdateMessageMapping(rawMsgContent: Text, userId: UserId, currentRawMappings: Text)
      returns (outcome: Result<(), SyncError>)
      modifies this
      ensures userId in old(mappings) ==>
                outcome == Ok(())
                && mappings == old(mappings)[userId := Merged(currentRawMappings, rawMsgContent)]
      ensures userId in old(mappings) && currentRawMappings == [] ==> mappings[userId] == rawMsgContent
      ensures userId in old(mappings) && currentRawMappings != [] ==>
                exists order :: mappings[userId] == Join(order)
                  && FirstSeen(CodePoints(currentRawMappings + rawMsgContent), order)
      ensures userId !in old(mappings) ==>
                outcome == Err(NoMappingRow) && mappings == old(mappings)
    {
      var text: Text;
      if currentRawMappings != [] {
        var newMappings := Union([], CodePoints(currentRawMappings + rawMsgContent));
        text := Join(newMappings);
        UnionFirstSeen(CodePoints(currentRawMappings + rawMsgContent));
      } else {
        text := rawMsgContent;
      }
      if userId !in mappings {
        return Err(NoMappingRow);
      }
      mappings := mappings[userId := text];
      outcome := Ok(());
    }

    /** The mapping write goes first, so it happens even when the encoding then throws. */
    method LaunchWorker(content: Text, authorId: UserId, encryptor: ESMessageEncryptor?)
      returns (r: Result<Text, SyncError>)
      requires encryptor != null ==> encryptor.Valid()
      modifies this, encryptor
      ensures encryptor == null ==> r == Err(EncryptorNotFound) && mappings == old(mappings)
      ensures encryptor != null ==>
              var h, keys := encryptor.HashOf(), old(encryptor.order);
              var p := Absorb(h, keys, CodePoints(content));
              encryptor.Valid()
              && if authorId !in old(mappings) then
                r == Err(NoMappingRow) && mappings == old(mappings) && encryptor.order == keys
              else
                && mappings == old(mappings)[authorId := Merged(Join(keys), content)]
                && encryptor.order == p.keys
                && (p.rest == [] ==> r == Ok(Encode(h, CodePoints(content))))
                && (p.rest != [] ==>
                      r.Err? && r.error.Refused? && |Join(p.rest)| <= |content|
                      && IsFault(h, p.keys, p.rest[0], |content| - |Join(p.rest)|, r.error.error))
    {
      if encryptor == null {
        return Err(EncryptorNotFound);
      }
      var current := encryptor.GetMappings();
      var written := CreateOrUpdateMessageMapping(content, authorId, current);
      if written.Err? {
        return Err(written.error);
      }
      var encoded := encryptor.Encrypt(content);
      match encoded {
        case Ok(text) => r := Ok(text);
        case Err(error) => r := Err(Refused(error));
      }
    }
  }

  /** Reading the old mappings and the message as one string fuses nothing: no lone high surrogate
      was mapped directly before a lone low one, nor last before a message that starts with one. */
  ghost predicate ReadsApart(keys: seq<CodePoint>, content: Text) {
    Separate(keys)
    && (keys != [] && content != [] ==> !(IsHigh(keys[|keys| - 1]) && IsLow(content[0])))
  }

  lemma JoinNonempty(keys: seq<CodePoint>)
    ensures Join(keys) == [] <==> keys == []
  {
  }

  lemma ReadTogether(keys: seq<CodePoint>, content: Text)
    requires ReadsApart(keys, content)
    ensures CodePoints(Join(keys) + content) == keys + CodePoints(content)
  {
    var cs := CodePoints(content);
    CodePointsSeparate(content);
    JoinCodePoints(content);
    if cs != [] {
      JoinFront(cs);
    }
    forall i | 0 <= i < |keys + cs| - 1
      ensures !(IsHigh((keys + cs)[i]) && IsLow((keys + cs)[i + 1]))
    {
      if i + 1 < |keys| {
        assert keys[i] == (keys + cs)[i] && keys[i + 1] == (keys + cs)[i + 1];
      } else if i >= |keys| {
        assert cs[i - |keys|] == (keys + cs)[i] && cs[i - |keys| + 1] == (keys + cs)[i + 1];
      } else if IsLow(cs[0]) {
        assert content[0] == cs[0];
      }
    }
    JoinAppend(keys, cs);
    CodePointsJoin(keys + cs);
  }

  lemma MergedOrder(h: Hash, keys: seq<CodePoint>, content: Text)
    requires Sound(h, keys) && ReadsApart(keys, content)
    requires Absorb(h, keys, CodePoints(content)).rest == []
    ensures Union([], CodePoints(Join(keys) + content)) == Absorb(h, keys, CodePoints(content)).keys
  {
    var cs := CodePoints(content);
    ReadTogether(keys, content);
    UnionAppend([], keys, cs);
    assert [] + keys == keys;
    UnionDistinct([], keys);
    AbsorbedIsUnion(h, keys, cs);
  }

  /** The mappings written ahead of the encoding are exactly the ones held after it: the old keys
      in front, then the new ones, none twice. */
  lemma WriteAhead(h: Hash, keys: seq<CodePoint>, content: Text)
    requires Sound(h, keys) && keys != [] && ReadsApart(keys, content)
    requires Absorb(h, keys, CodePoints(content)).rest == []
    ensures var after := Absorb(h, keys, CodePoints(content)).keys;
            && Merged(Join(keys), content) == Join(after)
            && keys <= after && Distinct(after)
            && (forall c :: c in after <==> c in keys || c in CodePoints(content))
  {
    JoinNonempty(keys);
    MergedOrder(h, keys, content);
    AbsorbedIsUnion(h, keys, CodePoints(content));
    UnionMembers(keys, CodePoints(content));
  }

  /** With no mappings yet the raw message is written; read back at every index it gives the code
      points of the message and the low halves of its pairs. */
  lemma FirstWrite(h: Hash, content: Text)
    requires Restore(h, Merged([], content)).rest == []
    ensures forall c :: c in Restore(h, Merged([], content)).keys <==>
                        IsKeyOrLowHalf(CodePoints(content), c)
  {
    RestoreMembers(h, content);
    ScanCodePoints(content);
    forall c ensures c in Expand(CodePoints(content)) <==> IsKeyOrLowHalf(CodePoints(content), c) {
      ExpandMembers(CodePoints(content), c);
    }
  }

  // ----- what a restored encryptor makes of it

  ghost predicate Sees(s: Text, c: CodePoint) {
    exists i :: 0 <= i < |s| && CodePointAt(s, i) == c
  }

  lemma {:induction false} ScanSees(s: Text, c: CodePoint)
    ensures c in Scan(s) <==> Sees(s, c)
  {
    if s != [] {
      ScanSees(s[1..], c);
      if Sees(s[1..], c) {
        var i :| 0 <= i < |s[1..]| && CodePointAt(s[1..], i) == c;
        assert CodePointAt(s, i + 1) == c;
      }
      if Sees(s, c) {
        var i :| 0 <= i < |s| && CodePointAt(s, i) == c;
        assert i > 0 ==> CodePointAt(s[1..], i - 1) == c;
      }
    }
  }

  lemma {:induction false} JoinSees(cs: seq<CodePoint>, c: CodePoint)
    requires c in cs && !IsHigh(c)
    ensures Sees(Join(cs), c)
  {
    var s, rest := Join(cs), Join(cs[1..]);
    if c == cs[0] {
      if IsSupplementary(c) { HalvesCombine(c); }
      assert CodePointAt(s, 0) == c;
    } else {
      JoinSees(cs[1..], c);
      var i :| 0 <= i < |rest| && CodePointAt(rest, i) == c;
      assert CodePointAt(s, i + Width(cs[0])) == c;
    }
  }

  lemma LowHalfSeen(s: Text, c: CodePoint)
    requires Sees(s, c) && IsSupplementary(c)
    ensures Sees(s, LowHalf(c))
  {
    var i :| 0 <= i < |s| && CodePointAt(s, i) == c;
    CombineSplits(s[i], s[i + 1]);
    assert CodePointAt(s, i + 1) == LowHalf(c);
  }

  lemma SeesAppend(s: Text, t: Text, c: CodePoint)
    requires Sees(s, c) || Sees(t, c)
    requires !IsHigh(c)
    ensures Sees(s + t, c)
  {
    if Sees(s, c) {
      var i :| 0 <= i < |s| && CodePointAt(s, i) == c;
      assert CodePointAt(s + t, i) == c;
    } else {
      var i :| 0 <= i < |t| && CodePointAt(t, i) == c;
      assert CodePointAt(s + t, |s| + i) == c;
    }
  }

  /** Only lone high surrogates can get lost in what is written. */
  lemma MergedSees(keys: seq<CodePoint>, content: Text, c: CodePoint)
    requires c in keys || c in CodePoints(content)
    requires !IsHigh(c)
    ensures Sees(Merged(Join(keys), content), c)
  {
    JoinNonempty(keys);
    JoinCodePoints(content);
    if c in keys { JoinSees(keys, c); } else { JoinSees(CodePoints(content), c); }
    if keys != [] {
      var text := Join(keys) + content;
      SeesAppend(Join(keys), content, c);
      ScanSees(text, c);
      ScanCodePoints(text);
      ExpandMembers(CodePoints(text), c);
      UnionMembers([], CodePoints(text));
      var all := Union([], CodePoints(text));
      if c in all {
        JoinSees(all, c);
      } else {
        var pair :| pair in CodePoints(text) && IsSupplementary(pair) && c == LowHalf(pair);
        JoinSees(all, pair);
        LowHalfSeen(Join(all), pair);
      }
    }
  }

  lemma HighOfMessageSeen(front: Text, content: Text, c: CodePoint)
    requires IsHigh(c) && c in CodePoints(content)
    ensures c in CodePoints(front + content)
  {
    ScanCodePoints(content);
    ExpandMembers(CodePoints(content), c);
    ScanSees(content, c);
    var i :| 0 <= i < |content| && CodePointAt(content, i) == c;
    assert CodePointAt(front + content, |front| + i) == c;
    HighSeen(front + content, c);
  }

  /** A lone high surrogate is one of the code points of a text when it is seen at some index. */
  lemma HighSeen(text: Text, c: CodePoint)
    requires IsHigh(c)
    ensures c in CodePoints(text) <==> Sees(text, c)
  {
    ScanCodePoints(text);
    ExpandMembers(CodePoints(text), c);
    ScanSees(text, c);
  }

  /** A lone high surrogate in the old mappings and the message, read as one string, is of either. */
  lemma HighOrigin(keys: seq<CodePoint>, content: Text, c: CodePoint)
    requires IsHigh(c) && c in CodePoints(Join(keys) + content)
    ensures c in keys || c in CodePoints(content)
  {
    var front := Join(keys);
    HighSeen(front + content, c);
    var i :| 0 <= i < |front + content| && CodePointAt(front + content, i) == c;
    if i < |front| {
      assert CodePointAt(front, i) == c;
      ScanSees(front, c);
      HighReadBack(keys, c);
    } else {
      assert CodePointAt(content, i - |front|) == c;
      HighSeen(content, c);
    }
  }

  /** What a caller can check before the write. With no mappings yet there is nothing to check;
      otherwise no lone high surrogate may be fused with the start of the message for good, and the
      merged order may have none directly before a lone low one. */
  ghost predicate NothingLost(keys: seq<CodePoint>, content: Text) {
    keys == []
    || (var cs := CodePoints(Join(keys) + content);
        Separate(Union([], cs)) && forall k :: k in keys && IsHigh(k) ==> k in cs)
  }

  /** Every lone high surrogate among the keys and in the message can be read from the text. */
  ghost predicate HighsSeen(keys: seq<CodePoint>, content: Text, text: Text) {
    forall c :: IsHigh(c) && (c in keys || c in CodePoints(content)) ==> Sees(text, c)
  }

  lemma HighsSeenWhenNothingLost(keys: seq<CodePoint>, content: Text, c: CodePoint)
    requires NothingLost(keys, content) && IsHigh(c) && (c in keys || c in CodePoints(content))
    ensures Sees(Merged(Join(keys), content), c)
  {
    JoinNonempty(keys);
    if keys == [] {
      HighSeen(content, c);
    } else {
      var cs := CodePoints(Join(keys) + content);
      if c in CodePoints(content) { HighOfMessageSeen(Join(keys), content, c); }
      UnionMembers([], cs);
      ScanJoin(Union([], cs));
      ExpandMembers(Union([], cs), c);
      ScanSees(Join(Union([], cs)), c);
    }
  }

  /** A lone high surrogate seen in a joined order is in it, and some place of it has no lone low
      one behind. */
  lemma SeenInOrder(order: seq<CodePoint>, k: CodePoint)
    requires IsHigh(k) && Sees(Join(order), k)
    ensures exists j :: 0 <= j < |order| && order[j] == k && (j + 1 < |order| ==> !IsLow(order[j + 1]))
  {
    ScanSees(Join(order), k);
    HighReadBack(order, k);
  }

  lemma SeparateWhenSeen(order: seq<CodePoint>)
    requires Distinct(order)
    requires forall k :: k in order && IsHigh(k) ==> Sees(Join(order), k)
    ensures Separate(order)
  {
    forall i | 0 <= i < |order| - 1 && IsHigh(order[i]) ensures !IsLow(order[i + 1]) {
      SeenInOrder(order, order[i]);
    }
  }

  lemma NothingLostWhenHighsSeen(keys: seq<CodePoint>, content: Text)
    requires HighsSeen(keys, content, Merged(Join(keys), content))
    ensures NothingLost(keys, content)
  {
    JoinNonempty(keys);
    if keys != [] {
      var cs := CodePoints(Join(keys) + content);
      var all := Union([], cs);
      UnionMembers([], cs);
      forall k | k in keys && IsHigh(k) ensures k in cs {
        SeenInOrder(all, k);
      }
      forall k | k in all && IsHigh(k) ensures Sees(Join(all), k) {
        HighOrigin(keys, content, k);
      }
      SeparateWhenSeen(all);
    }
  }

  lemma ReadBack(h: Hash, keys: seq<CodePoint>, content: Text, c: CodePoint)
    requires Restore(h, Merged(Join(keys), content)).rest == []
    requires c in keys || c in CodePoints(content)
    ensures c in Restore(h, Merged(Join(keys), content)).keys <==>
            (IsHigh(c) ==> Sees(Merged(Join(keys), content), c))
  {
    var text := Merged(Join(keys), content);
    RestoreMembers(h, text);
    ScanSees(text, c);
    if !IsHigh(c) { MergedSees(keys, content, c); }
  }

  lemma RestoredFromWritten(h: Hash, keys: seq<CodePoint>, content: Text, text: Text)
    requires text == Merged(Join(keys), content) && Restore(h, text).rest == []
    ensures (forall c :: c in keys || c in CodePoints(content) ==> c in Restore(h, text).keys)
            <==> NothingLost(keys, content)
  {
    forall c: CodePoint | c in keys || c in CodePoints(content)
      ensures c in Restore(h, text).keys <==> (IsHigh(c) ==> Sees(text, c))
    {
      ReadBack(h, keys, content, c);
    }
    if NothingLost(keys, content) {
      forall c: CodePoint | IsHigh(c) && (c in keys || c in CodePoints(content)) ensures Sees(text, c) {
        HighsSeenWhenNothingLost(keys, content, c);
      }
    } else if HighsSeen(keys, content, text) {
      NothingLostWhenHighsSeen(keys, content);
    }
  }

  /** An encryptor restored from what was written, when it constructs, decrypts the content that was
      encoded next and everything encoded before exactly under that condition. */
  lemma WrittenMappingsDecryptExactly(h: Hash, keys: seq<CodePoint>, content: Text)
    requires Sound(h, keys)
    requires Absorb(h, keys, CodePoints(content)).rest == []
    requires Restore(h, Merged(Join(keys), content)).rest == []
    ensures var restored := Restore(h, Merged(Join(keys), content)).keys;
            && Sound(h, restored)
            && (Decrypt(Inverse(h, restored), Encode(h, CodePoints(content))) == Ok(content)
                && (forall e :: Decrypt(Inverse(h, keys), e).Ok? ==>
                      Decrypt(Inverse(h, restored), e) == Decrypt(Inverse(h, keys), e))
                <==> NothingLost(keys, content))
  {
    var text := Merged(Join(keys), content);
    var restored := Restore(h, text).keys;
    RestoreMembers(h, text);
    RestoredFromWritten(h, keys, content, text);
    if NothingLost(keys, content) {
      WiderKeysDecrypt(h, keys, restored, content);
    } else {
      var k :| (k in keys || k in CodePoints(content)) && k !in restored;
      if k in keys {
        LostKeyMisread(h, keys, restored, k);
      } else {
        LostContentMisread(h, restored, content, k);
      }
    }
  }

  lemma AllSeen(keys: seq<CodePoint>, content: Text)
    requires NothingLost(keys, content)
    ensures Members(keys) + Members(CodePoints(content)) <= Members(Scan(Merged(Join(keys), content)))
  {
    forall c: CodePoint | c in keys || c in CodePoints(content)
      ensures c in Scan(Merged(Join(keys), content))
    {
      if IsHigh(c) { HighsSeenWhenNothingLost(keys, content, c); } else { MergedSees(keys, content, c); }
      ScanSees(Merged(Join(keys), content), c);
    }
  }

  /** The write comes first, so a message that the encoder refuses spoils the mappings: unless a lone
      high surrogate gets lost, no encryptor can be restored from what was written for it. */
  lemma RefusedMessageSpoils(h: Hash, keys: seq<CodePoint>, content: Text)
    requires Sound(h, keys) && NothingLost(keys, content)
    requires Absorb(h, keys, CodePoints(content)).rest != []
    ensures Restore(h, Merged(Join(keys), content)).rest != []
  {
    var text := Merged(Join(keys), content);
    AllSeen(keys, content);
    AbsorbsAllExactly(h, keys, CodePoints(content));
    AbsorbsAllExactly(h, [], Scan(text));
    assert Members([]) + Members(Scan(text)) == Members(Scan(text));
    assert 0 in CodePoints(content) ==> 0 in Members(CodePoints(content));
  }

  /** The first write never loses anything: restored from it, an encryptor decrypts the message. */
  lemma FirstWriteDecrypts(h: Hash, content: Text)
    requires Absorb(h, [], CodePoints(content)).rest == []
    requires Restore(h, Merged([], content)).rest == []
    ensures Decrypt(Inverse(h, Restore(h, Merged([], content)).keys), Encode(h, CodePoints(content)))
            == Ok(content)
  {
    WrittenMappingsDecryptExactly(h, [], content);
  }

  /** When the old mappings and the message read apart, nothing is lost exactly when the order after
      the encoding has no lone high surrogate directly before a lone low one. */
  lemma ApartLosesNothingExactly(h: Hash, keys: seq<CodePoint>, content: Text)
    requires Sound(h, keys) && keys != [] && ReadsApart(keys, content)
    requires Absorb(h, keys, CodePoints(content)).rest == []
    ensures NothingLost(keys, content) <==> Separate(Absorb(h, keys, CodePoints(content)).keys)
  {
    MergedOrder(h, keys, content);
    ReadTogether(keys, content);
  }

  lemma LostContentMisread(h: Hash, restored: seq<CodePoint>, content: Text, k: CodePoint)
    requires Sound(h, restored) && k in CodePoints(content) && k !in restored
    ensures Decrypt(Inverse(h, restored), Encode(h, CodePoints(content))) != Ok(content)
  {
    var e := Encode(h, CodePoints(content));
    var r := DecodeChunks(Inverse(h, restored), e);
    if r.Ok? {
      EncodeDecode(h, restored, e, r.value);
      DecryptDecoded(Inverse(h, restored), e, r.value);
      CodePointsJoin(r.value);
    }
  }

  lemma WiderKeysDecrypt(h: Hash, keys: seq<CodePoint>, wider: seq<CodePoint>, content: Text)
    requires Sound(h, keys) && Sound(h, wider)
    requires forall c :: c in keys || c in CodePoints(content) ==> c in wider
    ensures Decrypt(Inverse(h, wider), Encode(h, CodePoints(content))) == Ok(content)
    ensures forall e :: Decrypt(Inverse(h, keys), e).Ok? ==>
              Decrypt(Inverse(h, wider), e) == Decrypt(Inverse(h, keys), e)
  {
    KnownTextDecrypts(h, wider, content);
    forall e | Decrypt(Inverse(h, keys), e).Ok?
      ensures Decrypt(Inverse(h, wider), e) == Decrypt(Inverse(h, keys), e)
    {
      DecryptStable(h, keys, wider, e);
    }
  }

  /** The condition at the seam matters. An encryptor that has encoded a lone low surrogate and then
      a lone high one meets a message that starts with the low one: what is written is not what is
      held afterwards, and the high surrogate is lost. */
  lemma WriteAheadNeedsApart(h: Hash)
    requires h(0xDC00) != h(0xD800)
    ensures var keys, content: Text := Absorb(h, [], CodePoints([0xDC00, 0xD800])).keys, [0xDC00];
            && Sound(h, keys) && keys == [0xDC00, 0xD800]
            && Absorb(h, [], CodePoints([0xDC00, 0xD800])).rest == []
            && Separate(keys) && !ReadsApart(keys, content) && !NothingLost(keys, content)
            && Absorb(h, keys, CodePoints(content)) == Progress(keys, [])
            && Merged(Join(keys), content) != Join(keys)
  {
    LowThenHigh(h);
    SeamFuses();
    var content: Text := [0xDC00];
    assert CodePoints(content) == [0xDC00] by { assert content[1..] == []; }
    AbsorbKnown(h, [0xDC00, 0xD800], CodePoints(content));
  }

  /** But it is not needed: what fuses when it is read can come out the same when it is written. */
  lemma WriteAheadByChance(h: Hash)
    ensures var keys: seq<CodePoint>, content: Text := [0xD800, 0xDC00], [];
            && !ReadsApart(keys, content)
            && Merged(Join(keys), content) == Join(Absorb(h, keys, CodePoints(content)).keys)
  {
    NothingMet(h, [0xD800, 0xDC00]);
    HalvesMerged([0xD800, 0xDC00]);
  }

  lemma NothingMet(h: Hash, keys: seq<CodePoint>)
    ensures Absorb(h, keys, CodePoints([])).keys == keys
  {
  }

  lemma HalvesMerged(keys: seq<CodePoint>)
    requires keys == [0xD800, 0xDC00]
    ensures !ReadsApart(keys, []) && Merged(Join(keys), []) == Join(keys)
  {
    HalvesRead();
    assert IsHigh(keys[0]) && IsLow(keys[1]);
    NoMessageMerged(keys, [0x1_0000]);
  }

  lemma NoMessageMerged(keys: seq<CodePoint>, all: seq<CodePoint>)
    requires keys != [] && all == Union([], CodePoints(Join(keys)))
    ensures Merged(Join(keys), []) == Join(all)
  {
    assert Join(keys) + [] == Join(keys);
    MergedIs(keys, [], all);
  }

  lemma HalvesRead()
    ensures Join([0xD800, 0xDC00]) == Join([0x1_0000])
    ensures Union([], CodePoints(Join([0xD800, 0xDC00]))) == [0x1_0000]
  {
    HalvesJoin();
    var pair: seq<CodePoint> := [0x1_0000];
    CodePointsJoin(pair);
    UnionDistinct([], pair);
    assert [] + pair == pair;
  }

  lemma HalvesJoin()
    ensures Join([0xD800, 0xDC00]) == Join([0x1_0000])
  {
    JoinOne(0x1_0000);
    JoinOne(0xD800);
    JoinOne(0xDC00);
    JoinAppend([0xD800], [0xDC00]);
    assert [0xD800] + [0xDC00 as CodePoint] == [0xD800, 0xDC00];
  }

  lemma SeamFuses()
    ensures var keys: seq<CodePoint>, content: Text := [0xDC00, 0xD800], [0xDC00];
            && Separate(keys) && !ReadsApart(keys, content) && !NothingLost(keys, content)
            && Merged(Join(keys), content) != Join(keys)
  {
    SeamRead();
    SeamAt([0xDC00, 0xD800], [0xDC00]);
  }

  lemma SeamAt(keys: seq<CodePoint>, content: Text)
    requires keys == [0xDC00, 0xD800] && content == [0xDC00] && |Join(keys)| == 2
    requires CodePoints(Join(keys) + content) == [0xDC00, 0x1_0000]
    ensures Separate(keys) && !ReadsApart(keys, content) && !NothingLost(keys, content)
    ensures Merged(Join(keys), content) != Join(keys)
  {
    SeamNotApart(keys, content);
    HighFused(keys, content, 0xD800);
    SeamLonger();
    MergedDistinct(keys, content, [0xDC00, 0x1_0000]);
  }

  lemma SeamNotApart(keys: seq<CodePoint>, content: Text)
    requires keys == [0xDC00, 0xD800] && content == [0xDC00]
    ensures Separate(keys) && !ReadsApart(keys, content)
  {
  }

  lemma MergedDistinct(keys: seq<CodePoint>, content: Text, all: seq<CodePoint>)
    requires keys != [] && all == CodePoints(Join(keys) + content) && Distinct(all)
    ensures Merged(Join(keys), content) == Join(all)
  {
    UnionDistinct([], all);
    assert [] + all == all;
    MergedIs(keys, content, all);
  }

  lemma HighFused(keys: seq<CodePoint>, content: Text, k: CodePoint)
    requires k in keys && IsHigh(k) && k !in CodePoints(Join(keys) + content)
    ensures !NothingLost(keys, content)
  {
  }

  lemma MergedIs(keys: seq<CodePoint>, content: Text, all: seq<CodePoint>)
    requires keys != [] && all == Union([], CodePoints(Join(keys) + content))
    ensures Merged(Join(keys), content) == Join(all)
  {
  }

  lemma SeamLonger()
    ensures |Join([0xDC00, 0x1_0000])| == 3
  {
    JoinAppend([0xDC00], [0x1_0000]);
    assert [0xDC00 as CodePoint] + [0x1_0000] == [0xDC00, 0x1_0000];
    assert Join([0xDC00]) == [0xDC00] && |Join([0x1_0000])| == 2;
  }

  lemma SeamRead()
    ensures Join([0xDC00, 0xD800]) == [0xDC00, 0xD800]
    ensures CodePoints(Join([0xDC00, 0xD800]) + [0xDC00]) == [0xDC00, 0x1_0000]
  {
    var keys: seq<CodePoint>, content: Text := [0xDC00, 0xD800], [0xDC00];
    assert Join(keys) == [0xDC00, 0xD800] by { assert Join(keys[1..]) == [0xD800]; }
    var s: Text := [0xDC00, 0xD800, 0xDC00];
    assert Join(keys) + content == s;
    assert CodePointAt(s, 0) == 0xDC00 && s[1..] == [0xD800, 0xDC00];
    assert CodePointAt(s[1..], 0) == 0x1_0000 && s[1..][2..] == [];
    assert CodePoints(s[1..]) == [0x1_0000];
  }

  lemma LowThenHigh(h: Hash)
    requires h(0xDC00) != h(0xD800)
    ensures var s: Text := [0xDC00, 0xD800];
            Absorb(h, [], CodePoints(s)) == Progress([0xDC00, 0xD800], [])
    ensures Sound(h, [0xDC00, 0xD800])
  {
    var s: Text := [0xDC00, 0xD800];
    assert s[1..] == [0xD800] && s[1..][1..] == [];
    assert CodePoints(s[1..]) == [0xD800] && CodePoints(s) == [0xDC00, 0xD800];
    AbsorbStep(h, [0xDC00], 0xD800, []);
    AbsorbStep(h, [], 0xDC00, [0xD800]);
    assert [0xDC00] + [0xD800 as CodePoint] == [0xDC00, 0xD800];
  }
}
