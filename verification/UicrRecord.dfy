// The provisioning record in UICR.CUSTOMER: nine words holding a header and the
// device key (common/src/uicr_record.rs).
module UicrRecord {
  import opened Words

  const KEY_SIZE := 32
  const RECORD_WORDS := 9
  const RECORD_LEN := 4 * RECORD_WORDS
  const MAGIC: seq<Byte> := [0x48, 0x4B]
  const RECORD_VERSION: Byte := 1

  type Key = k: seq<Byte> | |k| == KEY_SIZE witness seq(KEY_SIZE, _ => 0)
  type Record = w: seq<Word> | |w| == RECORD_WORDS witness seq(RECORD_WORDS, _ => 0)

  datatype RecordError = InvalidMagic | InvalidPadding | UnsupportedVersion(version: Byte)
  datatype RecordHeader = BlankHeader | MalformedHeader(error: RecordError) | Present
  datatype UicrRecord = Blank | Malformed(error: RecordError) | Provisioned(key: Key)

  // ---- the record of a key ----

  function HeaderBytes(): (b: seq<Byte>)
    ensures |b| == 4
  {
    MAGIC + [RECORD_VERSION, 0]
  }

  function HeaderWord(): Word {
    FromLe32(MAGIC[0], MAGIC[1], RECORD_VERSION, 0)
  }

  // Word i of a byte image, little-endian.
  function WordAt(bytes: seq<Byte>, i: nat): Word
    requires 4 * i + 4 <= |bytes|
  {
    FromLe32(bytes[4 * i], bytes[4 * i + 1], bytes[4 * i + 2], bytes[4 * i + 3])
  }

  function RecordOf(key: Key): Record {
    seq(RECORD_WORDS, i requires 0 <= i < RECORD_WORDS => WordAt(HeaderBytes() + key, i))
  }

  // The bytes of words i, i + 1, ... of a record.
  function BytesFrom(words: Record, i: nat): (b: seq<Byte>)
    requires i <= RECORD_WORDS
    ensures |b| == 4 * (RECORD_WORDS - i)
    decreases RECORD_WORDS - i, |words|
  {
    if i == RECORD_WORDS then [] else ToLe32(words[i]) + BytesFrom(words, i + 1)
  }

  // The key bytes behind a header, whatever the header says.
  function KeyBytes(words: Record): Key {
    BytesFrom(words, 1)
  }

  function DecodeHeader(word: Word): RecordHeader {
    if word == ERASED then BlankHeader
    else
      var bytes := ToLe32(word);
      if bytes[..2] != MAGIC then MalformedHeader(InvalidMagic)
      else if bytes[2] != RECORD_VERSION then MalformedHeader(UnsupportedVersion(bytes[2]))
      else if bytes[3] != 0 then MalformedHeader(InvalidPadding)
      else Present
  }

  function Decode(words: Record): UicrRecord {
    match DecodeHeader(words[0])
    case BlankHeader => Blank
    case MalformedHeader(error) => Malformed(error)
    case Present => Provisioned(KeyBytes(words))
  }

  // ---- the loops of the program ----

  method Encode(key: Key) returns (words: Record)
    ensures words == RecordOf(key)
  {
    var buf := HeaderBytes() + key;
    var out := new Word[RECORD_WORDS](_ => 0);
    for i := 0 to RECORD_WORDS
      invariant forall j :: 0 <= j < i ==> out[j] == RecordOf(key)[j]
    {
      out[i] := FromLe32(buf[4 * i], buf[4 * i + 1], buf[4 * i + 2], buf[4 * i + 3]);
    }
    words := out[..];
  }

  method DecodeRecord(words: Record) returns (r: UicrRecord)
    ensures r == Decode(words)
  {
    hide ToLe32, DecodeHeader, BytesFrom;
    match DecodeHeader(words[0])
    case BlankHeader => return Blank;
    case MalformedHeader(error) => return Malformed(error);
    case Present =>
      var key: seq<Byte> := [];
      for i := 1 to RECORD_WORDS
        invariant key + BytesFrom(words, i) == KeyBytes(words)
      {
        NextBytes(words, i, key);
        key := key + ToLe32(words[i]);
      }
      NoMoreBytes(words, key);
      r := Provisioned(key);
  }

  lemma {:induction false} NextBytes(words: Record, i: nat, key: seq<Byte>)
    requires i < RECORD_WORDS
    ensures key + BytesFrom(words, i) == (key + ToLe32(words[i])) + BytesFrom(words, i + 1)
  {
    hide ToLe32;
  }

  lemma {:induction false} NoMoreBytes(words: Record, key: seq<Byte>)
    ensures key + BytesFrom(words, RECORD_WORDS) == key
  {
  }

  // ---- what the format promises ----

  // Exactly one header word is well formed.
  lemma {:induction false} PresentIsOneWord(w: Word)
    ensures DecodeHeader(w) == Present <==> w == HeaderWord()
  {
    hide ToLe32;
    var bytes := ToLe32(w);
    assert bytes[..2] == MAGIC ==> bytes[0] == MAGIC[0] && bytes[1] == MAGIC[1];
    assert [MAGIC[0], MAGIC[1], RECORD_VERSION, 0][..2] == MAGIC;
    Le32Injective(MAGIC[0], MAGIC[1], RECORD_VERSION, 0);
  }

  // Every verdict on a header, from its four bytes.
  lemma {:induction false} HeaderVerdicts(b0: Byte, b1: Byte, b2: Byte, b3: Byte)
    ensures var verdict, magic := DecodeHeader(FromLe32(b0, b1, b2, b3)), b0 == 0x48 && b1 == 0x4B;
            && (verdict == BlankHeader <==> b0 == b1 == b2 == b3 == 0xFF)
            && (verdict == MalformedHeader(InvalidMagic) <==> !magic && !(b0 == b1 == b2 == b3 == 0xFF))
            && (forall v :: verdict == MalformedHeader(UnsupportedVersion(v)) <==> magic && v == b2 != 1)
            && (verdict == MalformedHeader(InvalidPadding) <==> magic && b2 == 1 && b3 != 0)
            && (verdict == Present <==> magic && b2 == 1 && b3 == 0)
  {
    hide ToLe32;
    Le32Injective(b0, b1, b2, b3);
    assert [b0, b1, b2, b3][..2] == [b0, b1];
  }

  lemma {:induction false} WordBytes(bytes: seq<Byte>, i: nat)
    requires 4 * i + 4 <= |bytes|
    ensures ToLe32(WordAt(bytes, i)) == bytes[4 * i..4 * i + 4]
  {
    Le32Injective(bytes[4 * i], bytes[4 * i + 1], bytes[4 * i + 2], bytes[4 * i + 3]);
  }

  // Reading words off a byte image and spelling them out again is the identity.
  lemma {:induction false} BytesOfWords(words: Record, bytes: seq<Byte>, i: nat)
    requires |bytes| == RECORD_LEN && i <= RECORD_WORDS
    requires forall k :: i <= k < RECORD_WORDS ==> words[k] == WordAt(bytes, k)
    ensures BytesFrom(words, i) == bytes[4 * i..]
    decreases RECORD_WORDS - i
  {
    if i < RECORD_WORDS {
      BytesOfWords(words, bytes, i + 1);
      WordBytes(bytes, i);
      assert bytes[4 * i..] == bytes[4 * i..4 * i + 4] + bytes[4 * i + 4..];
    }
  }

  // And the other way round.
  lemma {:induction false} WordsOfBytes(words: Record, bytes: seq<Byte>, i: nat, k: nat)
    requires |bytes| == RECORD_LEN && i <= k < RECORD_WORDS
    requires BytesFrom(words, i) == bytes[4 * i..]
    ensures WordAt(bytes, k) == words[k]
    decreases RECORD_WORDS - i
  {
    var rest := bytes[4 * i..];
    assert rest[..4] == ToLe32(words[i]);
    if i == k {
      var b := ToLe32(words[i]);
      assert bytes[4 * i] == b[0] && bytes[4 * i + 1] == b[1] && bytes[4 * i + 2] == b[2] && bytes[4 * i + 3] == b[3];
    } else {
      assert rest[4..] == bytes[4 * (i + 1)..];
      WordsOfBytes(words, bytes, i + 1, k);
    }
  }

  lemma {:induction false} HeaderIsFirstWord(key: Key)
    ensures RecordOf(key)[0] == HeaderWord()
    ensures ToLe32(HeaderWord()) == HeaderBytes()
  {
    hide ToLe32;
    var bytes := HeaderBytes() + key;
    assert bytes[0] == MAGIC[0] && bytes[1] == MAGIC[1] && bytes[2] == RECORD_VERSION && bytes[3] == 0;
    Le32Injective(MAGIC[0], MAGIC[1], RECORD_VERSION, 0);
  }

  lemma {:induction false} KeyBytesOfRecord(key: Key)
    ensures KeyBytes(RecordOf(key)) == key
  {
    var bytes := HeaderBytes() + key;
    BytesOfWords(RecordOf(key), bytes, 1);
    assert bytes[4..] == key;
  }

  // Words decode to a key exactly when they are that key's record, so the
  // format has no second spelling of any key.
  lemma {:induction false} DecodesExactlyItsRecord(words: Record, key: Key)
    ensures Decode(words) == Provisioned(key) <==> words == RecordOf(key)
  {
    hide DecodeHeader, ToLe32;
    PresentIsOneWord(words[0]);
    KeyBytesOfRecord(key);
    HeaderIsFirstWord(key);
    if Decode(words) == Provisioned(key) {
      var bytes := HeaderBytes() + key;
      assert BytesFrom(words, 0) == bytes[0..];
      forall i: nat | i < RECORD_WORDS
        ensures words[i] == RecordOf(key)[i]
      {
        WordsOfBytes(words, bytes, 0, i);
      }
      assert words == RecordOf(key);
    }
  }

  // ---- the write order: key words first, header last ----

  // The record words after the first `done` word writes, over earlier contents.
  function AfterWrites(before: Record, key: Key, done: nat): Record
    requires done <= RECORD_WORDS
  {
    seq(RECORD_WORDS, i requires 0 <= i < RECORD_WORDS =>
      if (1 <= i <= done) || (i == 0 && done == RECORD_WORDS) then And(before[i], RecordOf(key)[i]) else before[i])
  }

  predicate ErasedRecord(words: Record) {
    forall i :: 0 <= i < RECORD_WORDS ==> words[i] == ERASED
  }

  // From erased words the header is a commit marker: every proper prefix of the
  // word writes decodes as blank, and all of them decode as exactly the key.
  lemma {:induction false} HeaderCommitsTheKey(before: Record, key: Key, done: nat)
    requires ErasedRecord(before) && done <= RECORD_WORDS
    ensures Decode(AfterWrites(before, key, done)) == if done < RECORD_WORDS then Blank else Provisioned(key)
  {
    if done == RECORD_WORDS {
      forall i | 0 <= i < RECORD_WORDS
        ensures AfterWrites(before, key, done)[i] == RecordOf(key)[i]
      {
        WriteErased(RecordOf(key)[i]);
      }
      assert AfterWrites(before, key, done) == RecordOf(key);
      DecodesExactlyItsRecord(AfterWrites(before, key, done), key);
    }
  }

  lemma {:induction false} WritesGiveTheRecord(before: Record, key: Key)
    requires before[0] == ERASED
    ensures AfterWrites(before, key, RECORD_WORDS)[0] == HeaderWord()
    ensures AfterWrites(before, key, RECORD_WORDS) == RecordOf(key) <==>
              forall i :: 1 <= i < RECORD_WORDS ==> Within(RecordOf(key)[i], before[i])
  {
    hide And, ToLe32;
    var after := AfterWrites(before, key, RECORD_WORDS);
    WriteErased(HeaderWord());
    HeaderIsFirstWord(key);
    forall i | 0 <= i < RECORD_WORDS
      ensures after[i] == And(RecordOf(key)[i], before[i])
    {
      AndCommutes(before[i], RecordOf(key)[i]);
    }
    if forall i :: 1 <= i < RECORD_WORDS ==> Within(RecordOf(key)[i], before[i]) {
      assert after == RecordOf(key);
    }
  }

  // Over an erased header with leftover key words the header still commits, but
  // to the conjunction of the key with what was left: the intended key exactly
  // when the leftovers have every bit of it.
  lemma {:induction false} LeftoversCommitAnotherKey(before: Record, key: Key)
    requires before[0] == ERASED
    ensures var after := AfterWrites(before, key, RECORD_WORDS);
            && Decode(after) == Provisioned(KeyBytes(after))
            && (Decode(after) == Provisioned(key) <==>
                forall i :: 1 <= i < RECORD_WORDS ==> Within(RecordOf(key)[i], before[i]))
  {
    var after := AfterWrites(before, key, RECORD_WORDS);
    WritesGiveTheRecord(before, key);
    PresentIsOneWord(after[0]);
    DecodesExactlyItsRecord(after, key);
  }

  // Where leftovers come from: an install of another key that was cut after
  // `done` of its writes. A later run finds a blank header and skips the erase;
  // its write ends in its own key exactly when the words already written had
  // every bit it needs, and otherwise in a well-formed record of a key nobody
  // chose.
  lemma {:induction false} ACutInstallSpoilsTheNext(erased: Record, other: Key, done: nat, key: Key)
    requires ErasedRecord(erased) && 1 <= done < RECORD_WORDS
    ensures var before := AfterWrites(erased, other, done);
            var after := AfterWrites(before, key, RECORD_WORDS);
            && DecodeHeader(before[0]) == BlankHeader
            && Decode(after).Provisioned?
            && (Decode(after) == Provisioned(key) <==>
                forall i :: 1 <= i <= done ==> Within(RecordOf(key)[i], RecordOf(other)[i]))
  {
    hide Decode, RecordOf, And;
    var before := AfterWrites(erased, other, done);
    LeftoversCommitAnotherKey(before, key);
    forall i: nat | 1 <= i < RECORD_WORDS
      ensures i <= done ==> before[i] == RecordOf(other)[i]
      ensures i > done ==> Within(RecordOf(key)[i], before[i])
    {
      WriteErased(RecordOf(other)[i]);
      WriteErased(RecordOf(key)[i]);
    }
  }

  // Two keys for which it does: the cut one all zeros, the next one not.
  lemma {:induction false} ABlankHeaderDoesNotMeanErasedKeyWords(erased: Record, other: Key, done: nat, key: Key)
    requires ErasedRecord(erased) && 1 <= done < RECORD_WORDS
    requires other == seq(KEY_SIZE, _ => 0) && key[0] != 0
    ensures var before := AfterWrites(erased, other, done);
            && DecodeHeader(before[0]) == BlankHeader
            && Decode(AfterWrites(before, key, RECORD_WORDS)).Provisioned?
            && Decode(AfterWrites(before, key, RECORD_WORDS)) != Provisioned(key)
  {
    hide Decode, DecodeHeader, AfterWrites;
    ACutInstallSpoilsTheNext(erased, other, done, key);
    FirstKeyWord(key);
    FirstKeyWord(other);
    assert !Within(RecordOf(key)[1], RecordOf(other)[1]);
  }

  lemma {:induction false} FirstKeyWord(key: Key)
    ensures RecordOf(key)[1] >= key[0]
    ensures key == seq(KEY_SIZE, _ => 0) ==> RecordOf(key)[1] == 0
  {
    var bytes := HeaderBytes() + key;
    assert bytes[4] == key[0] && bytes[5] == key[1] && bytes[6] == key[2] && bytes[7] == key[3];
  }
}
