// Byte ranges over a word-wise interface: read_bytes and write_bytes.
module ByteAccess {
  import opened Common
  import opened TargetMemory
  import opened Words
  import opened Ptrace

  method ReadBytes(t: Tracee, address: Address, size: nat) returns (r: Option<seq<Byte>>)
    modifies t`refused
    ensures t.refused >= old(t.refused)
    ensures r.Some? ==> t.refused == old(t.refused)
    ensures r.Some? ==> RangeMapped(t.mem, address, size) && r.value == BytesAt(t.mem, address, size)
    ensures r.None? ==> t.refused > old(t.refused)
  {
    var result: seq<Byte> := [];
    for index := 0 to size
      invariant |result| == index && t.refused == old(t.refused)
      invariant forall i :: 0 <= i < index ==> Plus(address, i) in t.mem && result[i] == t.mem[Plus(address, i)]
    {
      var location := Plus(address, index);
      var word := t.Peek(Aligned(location));
      if word.None? {
        return None;
      }
      WordHolds(t.mem, location, word.value);
      var byte := ExtractByte(word.value, location % 8);
      result := result + [byte];
    }
    r := Some(result);
  }

  lemma WordHolds(m: Memory, x: Address, w: Word)
    requires WordIs(m, Aligned(x), w)
    ensures x in m && Lane(w, x % 8) == m[x]
  {
    assert Plus(Aligned(x), x % 8) == x;
  }

  /** The cached words, laid over memory, are memory with a prefix of the bytes stored. */
  ghost predicate Caches(m: Memory, words: map<Address, Word>, put: Memory) {
    && put.Keys == m.Keys
    && (forall a | a in words :: a == Aligned(a) && RangeMapped(m, a, 8))
    && (forall x | x in m :: put[x] == if Aligned(x) in words then Lane(words[Aligned(x)], x % 8) else m[x])
  }

  lemma CacheWord(m: Memory, words: map<Address, Word>, put: Memory, a: Address, w: Word)
    requires Caches(m, words, put) && a == Aligned(a) && WordIs(m, a, w) && a !in words
    ensures Caches(m, words[a := w], put)
  {
    forall x | x in m && Aligned(x) == a ensures put[x] == Lane(w, x % 8) {
      WordHolds(m, x, w);
    }
  }

  lemma MergeIntoCache(m: Memory, words: map<Address, Word>, put: Memory, location: Address, b: Byte, w: Word)
    requires Caches(m, words, put) && Aligned(location) in words
    requires forall k: nat | k < 8 :: Lane(w, k) == if k == location % 8 then b else Lane(words[Aligned(location)], k)
    ensures location in m && Caches(m, words[Aligned(location) := w], put[location := b])
  {
    var a := Aligned(location);
    assert Plus(a, location % 8) == location;
    forall x | x in m && Aligned(x) == a ensures Lane(w, x % 8) == put[location := b][x] {
      assert x % 8 == location % 8 <==> x == location;
    }
  }

  /** Fetch a word if it is not cached yet. */
  method FetchWord(t: Tracee, words: map<Address, Word>, aligned: Address, ghost put: Memory)
    returns (ok: Outcome, words': map<Address, Word>)
    requires Caches(t.mem, words, put) && aligned == Aligned(aligned)
    modifies t`refused
    ensures ok == Ok ==> t.refused == old(t.refused)
    ensures ok == Ok ==> words'.Keys == words.Keys + {aligned} && Caches(t.mem, words', put)
    ensures ok == Thrown ==> t.refused > old(t.refused)
  {
    ok, words' := Ok, words;
    if aligned !in words' {
      var fetched := t.Peek(aligned);
      if fetched.None? {
        return Thrown, words';
      }
      CacheWord(t.mem, words', put, aligned, fetched.value);
      words' := words'[aligned := fetched.value];
    }
  }

  /** One turn of the first loop of write_bytes: have the word in the cache, then merge the byte into it. */
  method StoreByte(t: Tracee, words: map<Address, Word>, location: Address, b: Byte, ghost put: Memory)
    returns (ok: Outcome, words': map<Address, Word>)
    requires Caches(t.mem, words, put)
    modifies t`refused
    ensures ok == Ok ==> t.refused == old(t.refused) && location in t.mem
    ensures ok == Ok ==> words'.Keys == words.Keys + {Aligned(location)}
    ensures ok == Ok ==> Caches(t.mem, words', put[location := b])
    ensures ok == Thrown ==> t.refused > old(t.refused)
  {
    var aligned := Aligned(location);
    ok, words' := FetchWord(t, words, aligned, put);
    if ok == Thrown {
      return;
    }
    var word := MergeByte(words'[aligned], location % 8, b);
    MergeIntoCache(t.mem, words', put, location, b, word);
    words' := words'[aligned := word];
  }

  /** The first `index` bytes have been merged into the cached words. */
  ghost predicate CachedPrefix(m: Memory, words: map<Address, Word>, address: Address, bytes: seq<Byte>, index: nat)
    requires index <= |bytes|
  {
    && RangeMapped(m, address, index)
    && Caches(m, words, PutBytes(m, address, bytes[..index]))
    && (InOneWord(address, |bytes|) ==> words.Keys <= {Aligned(address)})
  }

  lemma SameWord(address: Address, size: nat, i: nat)
    requires InOneWord(address, size) && i < size
    ensures Aligned(Plus(address, i)) == Aligned(address)
  {
  }

  lemma PutNext(m: Memory, a: Address, bytes: seq<Byte>, i: nat)
    requires i < |bytes|
    ensures PutBytes(m, a, bytes[..i + 1]) == PutBytes(m, a, bytes[..i])[Plus(a, i) := bytes[i]]
  {
    assert bytes[..i + 1][..i] == bytes[..i];
  }

  lemma CacheNext(m: Memory, words: map<Address, Word>, words': map<Address, Word>, address: Address,
                  bytes: seq<Byte>, index: nat)
    requires index < |bytes| && CachedPrefix(m, words, address, bytes, index)
    requires Plus(address, index) in m && words'.Keys == words.Keys + {Aligned(Plus(address, index))}
    requires Caches(m, words', PutBytes(m, address, bytes[..index])[Plus(address, index) := bytes[index]])
    ensures CachedPrefix(m, words', address, bytes, index + 1)
  {
    PutNext(m, address, bytes, index);
    if InOneWord(address, |bytes|) {
      SameWord(address, |bytes|, index);
    }
  }

  /** The first loop of write_bytes: the touched words, with the new bytes merged in. */
  method CacheWords(t: Tracee, address: Address, bytes: seq<Byte>) returns (ok: Outcome, words: map<Address, Word>)
    modifies t`refused
    ensures ok == Ok ==> t.refused == old(t.refused) && CachedPrefix(t.mem, words, address, bytes, |bytes|)
    ensures ok == Thrown ==> t.refused > old(t.refused)
  {
    words := map[];
    for index := 0 to |bytes|
      invariant t.refused == old(t.refused)
      invariant CachedPrefix(t.mem, words, address, bytes, index)
    {
      ghost var before := words;
      ok, words := StoreByte(t, words, Plus(address, index), bytes[index], PutBytes(t.mem, address, bytes[..index]));
      if ok == Thrown {
        return;
      }
      CacheNext(t.mem, before, words, address, bytes, index);
    }
    ok := Ok;
  }

  /**
   * Fetch each touched word once, merge the bytes into the cached words, then poke the words back.
   * On success this is the byte-by-byte store. On failure each byte has its old or its new value,
   * and a range inside one word is untouched.
   */
  method WriteBytes(t: Tracee, address: Address, bytes: seq<Byte>) returns (ok: Outcome)
    modifies t`refused, t`mem
    ensures ok == Ok ==> t.refused == old(t.refused)
    ensures ok == Ok ==> RangeMapped(old(t.mem), address, |bytes|) && t.mem == PutBytes(old(t.mem), address, bytes)
    ensures ok == Thrown ==> t.refused > old(t.refused)
    ensures ok == Thrown ==> BetweenStores(old(t.mem), t.mem, PutBytes(old(t.mem), address, bytes))
    ensures ok == Thrown && InOneWord(address, |bytes|) ==> t.mem == old(t.mem)
  {
    var words: map<Address, Word>;
    ok, words := CacheWords(t, address, bytes);
    if ok == Ok {
      assert bytes[..|bytes|] == bytes;
      ok := PokeWords(t, words, PutBytes(t.mem, address, bytes), Aligned(address));
    }
  }

  /** Every byte has its value before the store or its value after it. */
  ghost predicate BetweenStores(m: Memory, now: Memory, put: Memory) {
    && now.Keys == m.Keys
    && forall x | x in m :: now[x] == m[x] || (x in put && now[x] == put[x])
  }

  /** What memory is after some of the cached words have been poked. */
  ghost predicate Poking(m: Memory, now: Memory, put: Memory, left: set<Address>) {
    && now.Keys == m.Keys == put.Keys
    && forall x | x in m :: now[x] == if Aligned(x) in left then m[x] else put[x]
  }

  /** The second loop of write_bytes. The order of the pokes is left open. */
  method PokeWords(t: Tracee, words: map<Address, Word>, ghost put: Memory, ghost only: Address)
    returns (ok: Outcome)
    requires Caches(t.mem, words, put)
    modifies t`refused, t`mem
    ensures ok == Ok ==> t.refused == old(t.refused) && t.mem == put
    ensures ok == Thrown ==> t.refused > old(t.refused) && BetweenStores(old(t.mem), t.mem, put)
    ensures ok == Thrown && words.Keys <= {only} ==> t.mem == old(t.mem)
  {
    ghost var m := t.mem;
    var left := words.Keys;
    while left != {}
      invariant left <= words.Keys && t.refused == old(t.refused)
      invariant Poking(m, t.mem, put, left)
      invariant words.Keys <= {only} && left != {} ==> t.mem == m
    {
      var aligned :| aligned in left;
      ghost var before := t.mem;
      var poked := t.Poke(aligned, words[aligned]);
      if poked == Thrown {
        return Thrown;
      }
      WordPoked(m, before, words, put, left, aligned);
      left := left - {aligned};
    }
    assert t.mem == put;
    ok := Ok;
  }

  lemma WordPoked(m: Memory, now: Memory, words: map<Address, Word>, put: Memory, left: set<Address>, a: Address)
    requires Caches(m, words, put) && Poking(m, now, put, left) && a in left && a in words
    ensures Poking(m, Poked(now, a, words[a]), put, left - {a})
  {
    forall x | x in m
      ensures Poked(now, a, words[a])[x] == if Aligned(x) in left - {a} then m[x] else put[x]
    {
      InWord(a, x);
    }
  }

  lemma InWord(a: Address, x: Address)
    requires a == Aligned(a)
    ensures Offset(x, a) < 8 <==> Aligned(x) == a
    ensures Aligned(x) == a ==> Offset(x, a) == x % 8
  {
  }

  /** After a successful write of at most 2^64 bytes, the range reads back as written and no other byte changed. */
  lemma ReadBack(m: Memory, address: Address, bytes: seq<Byte>)
    requires |bytes| <= ADDRESS_SPACE && RangeMapped(m, address, |bytes|)
    ensures var m' := PutBytes(m, address, bytes);
            && m'.Keys == m.Keys
            && RangeMapped(m', address, |bytes|)
            && BytesAt(m', address, |bytes|) == bytes
            && forall x | x in m && Offset(x, address) >= |bytes| :: m'[x] == m[x]
  {
    var m' := PutBytes(m, address, bytes);
    PutBytesKeys(m, address, bytes);
    forall i | 0 <= i < |bytes| ensures m'[Plus(address, i)] == bytes[i] {
      PutBytesAt(m, address, bytes, Plus(address, i));
      PlusOffset(address, i, Plus(address, i));
    }
    forall x | x in m && Offset(x, address) >= |bytes| ensures m'[x] == m[x] {
      PutBytesAt(m, address, bytes, x);
    }
  }
}
