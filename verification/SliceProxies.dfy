/** The proxy that answers byte-range requests from fixed-size slices, which come from the slice
    cache or, on a miss, from the range reader. Other requests may use the same cache before any use
    of ours. Offsets and lengths are computed by 64-bit arithmetic. */
module SliceProxies {
  import opened Text
  import opened RangeHeaders
  import opened CacheItems
  import opened MemoryCaches
  import opened RangeReaders
  import opened SliceStores

  /** What another request does to the shared cache. */
  datatype CacheOp = Lookup(key: string) | Store(key: string, item: CacheItem)

  /** The item is the slice of the source that starts at `offset`. */
  ghost predicate TrueSlice(source: seq<byte>, sliceSize: nat, offset: nat, item: CacheItem) {
    && item.metadata.Some? && item.metadata.value.contentTotalLength == |source|
    && item.data == Slice(source, offset, sliceSize)
  }

  /** Every item under a key of this resource is the slice that the key names. */
  ghost predicate Truthful(source: seq<byte>, hash: string, sliceSize: nat, items: map<string, CacheItem>) {
    forall offset: nat :: CacheKey(hash, offset, sliceSize) in items ==>
      TrueSlice(source, sliceSize, offset, items[CacheKey(hash, offset, sliceSize)])
  }

  /** The cached form of a slice. */
  function SliceItem(contentType: string, total: int, data: seq<byte>): CacheItem {
    CacheItem(Some(Metadata(map[], contentType, total)), data)
  }

  ghost predicate TruthfulOp(source: seq<byte>, hash: string, sliceSize: nat, op: CacheOp) {
    op.Store? ==> forall offset: nat :: CacheKey(hash, offset, sliceSize) == op.key ==>
      TrueSlice(source, sliceSize, offset, op.item)
  }

  lemma StoreTrueSlice(source: seq<byte>, hash: string, sliceSize: nat, items: map<string, CacheItem>,
                       offset: nat, item: CacheItem)
    requires '-' !in hash && Truthful(source, hash, sliceSize, items) && TrueSlice(source, sliceSize, offset, item)
    ensures Truthful(source, hash, sliceSize, items[CacheKey(hash, offset, sliceSize) := item])
  {
    hide CacheKey, TrueSlice;
    var key := CacheKey(hash, offset, sliceSize);
    forall o: nat | CacheKey(hash, o, sliceSize) in items[key := item]
      ensures TrueSlice(source, sliceSize, o, items[key := item][CacheKey(hash, o, sliceSize)])
    {
      if CacheKey(hash, o, sliceSize) == key {
        CacheKeyInjective(hash, o, sliceSize, hash, offset, sliceSize);
      }
    }
  }

  /** The response of one request. The client accepts `room` more bytes and then goes away. */
  class ResponseWriter {
    var status: int
    var header: map<string, seq<string>>
    var body: seq<byte>
    var room: nat

    constructor (room: nat)
      ensures status == 0 && header == map[] && body == [] && this.room == room
    {
      status, header, body := 0, map[], [];
      this.room := room;
    }

    /** `http.Header.Set`. */
    method SetHeader(name: string, value: string)
      modifies `header
      ensures header == old(header)[name := [value]]
    {
      header := header[name := [value]];
    }

    method Write(bytes: seq<byte>) returns (ok: bool)
      modifies `body, `room
      ensures ok <==> |bytes| <= old(room)
      ensures body == old(body) + if ok then bytes else bytes[..old(room)]
      ensures room == if ok then old(room) - |bytes| else 0
    {
      ok := |bytes| <= room;
      var n := if ok then |bytes| else room;
      assert bytes[..|bytes|] == bytes;
      body := body + bytes[..n];
      room := room - n;
    }
  }

  function FmtContentLength(start: int, end: int, total: int): string {
    var length := ContentLength(start, end, total);
    if length == -1 then "" else FormatInt(length)
  }

  /** The announced length is the number of bytes that will be written exactly when the range
      does not start beyond the end of the source. */
  lemma AnnouncedLengthIff(r: ByteRange, total: nat)
    requires 0 <= r.start && (r.end == -1 || r.start <= r.end) && total > 0
    ensures var (from, to) := Selected(r, total);
            var written := if from < to then to - from else 0;
            FmtContentLength(r.start, r.end, total) == FormatInt(written) <==> r.start <= total
  {
    hide FormatInt;
    if r.start > total {
      NegativeLengthText(ContentLength(r.start, r.end, total));
    }
  }

  /** The header is empty if and only if there is no length, or it comes out as -1; else it reads as the
      length. */
  lemma ContentLengthText(start: int, end: int, total: int)
    requires InInt64(ContentLength(start, end, total))
    ensures var text, length := FmtContentLength(start, end, total), ContentLength(start, end, total);
            (text == "" <==> length == -1) && (length != -1 ==> ParseInt(text) == Some(length))
  {
    hide ParseInt, ContentLength;
    ParseFormatInt(ContentLength(start, end, total));
  }

  lemma NegativeLengthText(n: int)
    requires n < 0
    ensures "" != FormatInt(0) && FormatInt(n) != FormatInt(0)
  {
    hide FormatNat;
    assert FormatInt(n) == ['-'] + FormatNat(-n);
    assert '-' !in FormatNat(0);
    assert '-' in FormatInt(n);
  }

  const CACHE_STATUS := "X-Cache-Status"
  const OWN_HEADERS: set<string> := {"Content-Type", "Content-Length", "Content-Range", "Accept-Ranges"}

  /** The header has exactly this value. */
  predicate HasHeader(header: map<string, seq<string>>, name: string, value: string) {
    name in header && header[name] == [value]
  }

  class SliceCacheProxy {
    const hash: string
    const sliceSize: nat
    const r: RangeReader
    const store: SliceStore
    /** What other requests do to the cache before each of our cache accesses. */
    const others: seq<seq<CacheOp>>
    var turn: nat
    /** How many of our own uses of the cache have failed. */
    ghost var ownFailures: nat

    ghost predicate Valid()
      reads this, r, store, store.Repr
    {
      && r.Valid() && store.Valid()
      && r !in store.Repr && this !in store.Repr
      && Fits() && Truths() && OthersAreTruthful()
    }

    ghost predicate Fits() {
      '-' !in hash && sliceSize > 0 && |r.source| + sliceSize <= MAX_INT64
    }

    /** Whatever the cache may answer for a key of this resource is the slice that the key names. */
    ghost predicate Truths()
      reads store
    {
      && Truthful(r.source, hash, sliceSize, store.latest)
      && Truthful(r.source, hash, sliceSize, store.written)
      // the cache can give back every slice of this resource
      && forall contentType, data: seq<byte> | Offered(r.respond, contentType) && |data| <= sliceSize ::
           store.Takes(SliceItem(contentType, |r.source|, data))
    }

    ghost predicate OthersAreTruthful() {
      forall i, j | 0 <= i < |others| && 0 <= j < |others[i]| :: OtherOp(others[i][j])
    }

    ghost predicate OtherOp(op: CacheOp) {
      op.key != "" && TruthfulOp(r.source, hash, sliceSize, op) && (op.Store? ==> store.Takes(op.item))
    }

    constructor (hash: string, sliceSize: nat, r: RangeReader, store: SliceStore, others: seq<seq<CacheOp>>)
      requires r.Valid() && store.Valid() && r !in store.Repr
      requires '-' !in hash && sliceSize > 0 && |r.source| + sliceSize <= MAX_INT64
      requires Truthful(r.source, hash, sliceSize, store.latest) && Truthful(r.source, hash, sliceSize, store.written)
      requires forall contentType, data: seq<byte> | Offered(r.respond, contentType) && |data| <= sliceSize ::
                 store.Takes(SliceItem(contentType, |r.source|, data))
      requires forall i, j | 0 <= i < |others| && 0 <= j < |others[i]| ::
                 && others[i][j].key != "" && TruthfulOp(r.source, hash, sliceSize, others[i][j])
                 && (others[i][j].Store? ==> store.Takes(others[i][j].item))
      ensures Valid() && this.r == r && this.store == store
    {
      this.hash, this.sliceSize, this.r, this.store, this.others := hash, sliceSize, r, store, others;
      turn, ownFailures := 0, 0;
      new;
      hide RangeReader.Valid, SliceStore.Valid, Truthful, TruthfulOp,
           SliceStore.Takes, Offered;
    }

    /** Reads one slice. A short buffer is a slice only if it ends at the total length: a server that
        hung up, or a body that broke off, leaves a shorter one. */
    method FetchFromSource(offset: nat) returns (res: Result<CacheItem>)
      requires r.Valid() && 0 < sliceSize <= MAX_INT64 && offset <= MAX_INT64
      modifies r
      ensures r.Valid()
      ensures res.Ok? ==>
                && TrueSlice(r.source, sliceSize, offset, res.value) && |res.value.data| <= sliceSize
                && exists contentType | Offered(r.respond, contentType) ::
                     res.value == SliceItem(contentType, |r.source|, res.value.data)
      ensures old(r.Healthy()) ==> r.Healthy() && (offset < |r.source| ==> res.Ok?)
    {
      hide RangeReader.Valid, RangeReader.Healthy;
      var sought := r.Seek(offset, SeekStart);
      if sought.Err? {
        return Err("failed to seek");
      }
      var buf, outcome := r.ReadFull(sliceSize);
      if outcome.Nothing? || outcome.Error? {
        return Err("failed to read from source");
      }
      var total := r.ContentTotalLength();
      if total.Err? {
        return Err("failed to get content total length");
      }
      if outcome.Short? && total.value != offset + |buf| {
        return Err("source content total length mismatch");
      }
      var contentType := r.ContentType();
      if contentType.Err? {
        return Err("failed to get content type");
      }
      res := Ok(SliceItem(contentType.value, total.value, buf));
    }

    /** The turn after n more turns of the others. */
    function Later(t: nat, n: nat): nat {
      if t >= |others| then t else if t + n <= |others| then t + n else |others|
    }

    /** Other requests use the cache. */
    method LetOthersRun()
      requires Valid()
      modifies `turn, store.Repr
      ensures Valid() && fresh(store.Repr - old(store.Repr)) && store.failures >= old(store.failures)
      ensures turn == Later(old(turn), 1)
      ensures store.latest == Stored(old(store.latest), if old(turn) < |others| then others[old(turn)] else [])
    {
      hide SliceStore.Valid, RangeReader.Valid, Truths, TruthfulOp, OtherOp, SliceStore.Takes;
      if turn < |others| {
        var ops := others[turn];
        turn := turn + 1;
        for i := 0 to |ops|
          invariant Valid() && fresh(store.Repr - old(store.Repr)) && store.failures >= old(store.failures)
          invariant forall j | 0 <= j < |ops| :: OtherOp(ops[j])
          invariant store.latest == Stored(old(store.latest), ops[..i])
          invariant turn == old(turn) + 1
        {
          assert ops[..i + 1][..i] == ops[..i];
          RunOther(ops[i]);
        }
        assert ops[..|ops|] == ops;
      }
    }

    method RunOther(op: CacheOp)
      requires Valid() && OtherOp(op)
      modifies store.Repr
      ensures Valid() && fresh(store.Repr - old(store.Repr)) && store.failures >= old(store.failures)
      ensures store.latest == Stored(old(store.latest), [op])
    {
      hide SliceStore.Valid, RangeReader.Valid, Truthful, SliceStore.Takes,
           OthersAreTruthful;
      if op.Lookup? {
        var _ := store.Get(op.key);
      } else {
        OtherStoreIsTruthful(r.source, hash, sliceSize, store.latest, op);
        OtherStoreIsTruthful(r.source, hash, sliceSize, store.written, op);
        var _ := store.Set(op.key, op.item);
      }
    }

    /** The slice at an aligned offset, from the cache or from the source. */
    method GetCacheItem(alignedOffset: int) returns (res: Result<CacheItem>, cached: bool)
      requires Valid() && alignedOffset <= MAX_INT64
      modifies `turn, `ownFailures, r, store.Repr
      ensures Valid() && fresh(store.Repr - old(store.Repr)) && store.failures >= old(store.failures)
      ensures alignedOffset < 0 ==> res.Err?
      ensures res.Ok? ==> alignedOffset >= 0 && TrueSlice(r.source, sliceSize, alignedOffset, res.value)
      // A slice that is said to come from the cache was not fetched, any other one is stored; a use of the
      // cache that fails is not passed over.
      ensures cached ==> res.Ok? && r.exchanges == old(r.exchanges) && r.offset == old(r.offset)
      ensures res.Ok? && !cached ==>
                var key := CacheKey(hash, alignedOffset, sliceSize);
                key in store.latest && store.latest[key] == res.value
      ensures res.Ok? ==> ownFailures == old(ownFailures) && turn == Later(old(turn), if cached then 1 else 3)
      ensures old(r.Healthy()) ==> r.Healthy()
      ensures old(r.Healthy()) && 0 <= alignedOffset < |r.source| && store.failures == old(store.failures) ==> res.Ok?
    {
      hide RangeReader.Healthy, SliceStore.Valid, RangeReader.Valid, Truths, OthersAreTruthful, CacheKey, TrueSlice;
      if alignedOffset < 0 {
        return Err("cache item offset cannot be negative"), false;
      }
      LetOthersRun();
      var hit := Lookup(alignedOffset);
      if hit.Err? {
        return Err("failed to get item from cache"), false;
      }
      if hit.value.Some? {
        return Ok(hit.value.value), true;
      }
      LetOthersRun();
      SliceFits();
      res := FetchFromSource(alignedOffset);
      cached := false;
      if res.Ok? {
        LetOthersRun();
        var stored := StoreSlice(alignedOffset, res.value);
        if !stored {
          res := Err("failed to store item in cache");
        }
      }
    }

    lemma SliceFits()
      requires Valid()
      ensures 0 < sliceSize <= MAX_INT64
    {
    }

    method Lookup(offset: nat) returns (hit: Result<Option<CacheItem>>)
      requires Valid()
      modifies `ownFailures, store.Repr
      ensures Valid() && fresh(store.Repr - old(store.Repr))
      ensures ownFailures == old(ownFailures) + if hit.Err? then 1 else 0
      ensures hit.Ok? && hit.value.Some? ==> TrueSlice(r.source, sliceSize, offset, hit.value.value)
      ensures store.failures == old(store.failures) + if hit.Err? then 1 else 0
    {
      hide SliceStore.Valid, RangeReader.Valid, Truthful, SliceStore.Takes,
           OthersAreTruthful, CacheKey, TrueSlice;
      var key := CacheKey(hash, offset, sliceSize);
      KeyIsNotEmpty(hash, offset, sliceSize);
      hit := store.Get(key);
      ownFailures := ownFailures + if hit.Err? then 1 else 0;
      if key in store.latest { HitIsTrue(r.source, hash, sliceSize, store.latest, offset); }
      if key in store.written { HitIsTrue(r.source, hash, sliceSize, store.written, offset); }
    }

    method StoreSlice(offset: nat, item: CacheItem) returns (ok: bool)
      requires Valid() && TrueSlice(r.source, sliceSize, offset, item) && |item.data| <= sliceSize
      requires exists contentType | Offered(r.respond, contentType) :: item == SliceItem(contentType, |r.source|, item.data)
      modifies `ownFailures, store.Repr
      ensures Valid() && fresh(store.Repr - old(store.Repr))
      ensures store.failures == old(store.failures) + if ok then 0 else 1
      ensures ownFailures == old(ownFailures) + if ok then 0 else 1
      ensures store.latest == old(store.latest)[CacheKey(hash, offset, sliceSize) := item]
    {
      hide SliceStore.Valid, RangeReader.Valid, Truthful, SliceStore.Takes,
           OthersAreTruthful, CacheKey, TrueSlice;
      var key := CacheKey(hash, offset, sliceSize);
      KeyIsNotEmpty(hash, offset, sliceSize);
      StoreTrueSlice(r.source, hash, sliceSize, store.latest, offset, item);
      StoreTrueSlice(r.source, hash, sliceSize, store.written, offset, item);
      var stored := store.Set(key, item);
      ok := stored.Ok?;
      ownFailures := ownFailures + if ok then 0 else 1;
    }

    /** Writes the selected bytes, slice by slice. On an error, a prefix of them was written. */
    method WriteResponse(w: ResponseWriter, byteRange: ByteRange, alignedOffset: int, first: CacheItem)
      returns (res: Result<()>)
      requires Valid() && w !in store.Repr && RangeInBounds(byteRange)
      requires alignedOffset == AlignedOffset(byteRange.start, sliceSize)
      requires TrueSlice(r.source, sliceSize, alignedOffset, first)
      modifies `turn, `ownFailures, r, store.Repr, w`body, w`room
      ensures Valid() && fresh(store.Repr - old(store.Repr)) && store.failures >= old(store.failures)
      ensures WroteWanted(r.source, byteRange, old(w.body), w.body, res.Ok?)
      ensures res.Ok? ==> ownFailures == old(ownFailures)
      ensures old(r.Healthy()) ==> r.Healthy()
      ensures old(r.Healthy()) && store.failures == old(store.failures) && old(w.room) >= |Wanted(r.source, byteRange)| ==> res.Ok?
    {
      hide Valid, TrueSlice, Selected, ContentLength, Wanted, RangeReader.Healthy;
      Bounds();
      ghost var source, want, before := r.source, Wanted(r.source, byteRange), w.body;
      ghost var done: nat := 0;
      var sliceOffset := byteRange.start - alignedOffset;
      if sliceOffset < 0 {
        assert false;
      }
      SliceTotal(source, alignedOffset, first);
      WantedLength(source, byteRange);
      var remainingLength := ContentLength(byteRange.start, byteRange.end, first.metadata.value.contentTotalLength);
      assert before + want[..0] == before;
      if remainingLength == 0 {
        return Ok(());
      }
      if remainingLength > 0 {
        FirstPart(source, sliceSize, byteRange, alignedOffset, first, remainingLength);
        var n := |first.data| - sliceOffset;
        if n > remainingLength {
          n := remainingLength;
        }
        if n > 0 {
          var ok := WritePart(w, first.data[sliceOffset..sliceOffset + n], before, want, done);
          if !ok {
            return Err("failed to write initial data slice");
          }
          remainingLength := remainingLength - n;
          done := n;
        }
      }
      if remainingLength > 0 {
        WantedInside(source, byteRange, done);
      }
      var currentOffset := Wrap64(alignedOffset + sliceSize);
      res := WriteRest(w, byteRange, currentOffset, remainingLength, before, done);
    }

    /** One turn of the loop: the slice at the current offset, as far as it is wanted. */
    method WriteNext(w: ResponseWriter, byteRange: ByteRange, currentOffset: int, remainingLength: int,
                     ghost before: seq<byte>, ghost done: nat) returns (res: Result<nat>, next: int)
      requires Valid() && w !in store.Repr && byteRange.start >= 0
      requires done < |Wanted(r.source, byteRange)| && w.body == before + Wanted(r.source, byteRange)[..done]
      requires remainingLength == |Wanted(r.source, byteRange)| - done && byteRange.start + done == currentOffset
      modifies `turn, `ownFailures, r, store.Repr, w`body, w`room
      ensures Valid() && fresh(store.Repr - old(store.Repr)) && store.failures >= old(store.failures)
      // The 64-bit sum is the next offset.
      ensures InInt64(next) && next == currentOffset + sliceSize
      ensures res.Ok? ==>
                && 0 < res.value <= remainingLength && (res.value < remainingLength ==> res.value == sliceSize)
                && w.body == before + Wanted(r.source, byteRange)[..done + res.value] && w.room == old(w.room) - res.value
      ensures res.Err? ==> WroteWanted(r.source, byteRange, before, w.body, false)
      ensures res.Ok? ==> ownFailures == old(ownFailures)
      ensures old(r.Healthy()) ==> r.Healthy()
      ensures old(r.Healthy()) && store.failures == old(store.failures) && old(w.room) >= remainingLength ==> res.Ok?
    {
      hide Valid, TrueSlice, Selected, Wanted, RangeReader.Healthy;
      Bounds();
      ghost var want := Wanted(r.source, byteRange);
      WantedInside(r.source, byteRange, done);
      next := Wrap64(currentOffset + sliceSize);
      var item, _ := GetCacheItem(currentOffset);
      if item.Err? {
        return Err("failed to get cache item"), next;
      }
      NextPart(r.source, sliceSize, byteRange, done, currentOffset, item.value);
      var n := |item.value.data|;
      if n > remainingLength {
        n := remainingLength;
      }
      if n > 0 {
        var ok := WritePart(w, item.value.data[..n], before, want, done);
        if !ok {
          return Err("failed to write data slice"), next;
        }
      }
      res := Ok(n);
    }

    /** Writes the slices from `offset` on, when `start` of the wanted bytes are written. */
    method WriteRest(w: ResponseWriter, byteRange: ByteRange, offset: int, length: int, ghost before: seq<byte>, ghost start: nat)
      returns (res: Result<()>)
      requires Valid() && w !in store.Repr && byteRange.start >= 0
      requires start <= |Wanted(r.source, byteRange)| && w.body == before + Wanted(r.source, byteRange)[..start]
      requires length == |Wanted(r.source, byteRange)| - start || (length < 0 && Wanted(r.source, byteRange) == [])
      requires length > 0 ==> byteRange.start + start == offset
      modifies `turn, `ownFailures, r, store.Repr, w`body, w`room
      ensures Valid() && fresh(store.Repr - old(store.Repr)) && store.failures >= old(store.failures)
      ensures WroteWanted(r.source, byteRange, before, w.body, res.Ok?)
      ensures res.Ok? ==> ownFailures == old(ownFailures)
      ensures old(r.Healthy()) ==> r.Healthy()
      ensures old(r.Healthy()) && store.failures == old(store.failures) && start + old(w.room) >= |Wanted(r.source, byteRange)| ==>
                res.Ok?
    {
      hide Valid, TrueSlice, Selected, Wanted, RangeReader.Healthy;
      Bounds();
      ghost var source, want, done := r.source, Wanted(r.source, byteRange), start;
      var currentOffset, remainingLength := offset, length;
      while remainingLength > 0
        invariant Valid() && fresh(store.Repr - old(store.Repr)) && w !in store.Repr && store.failures >= old(store.failures)
        invariant 0 <= done <= |want| && w.body == before + want[..done]
        invariant remainingLength == |want| - done || (remainingLength < 0 && want == [])
        invariant remainingLength > 0 ==> byteRange.start + done == currentOffset
        invariant ownFailures == old(ownFailures)
        invariant old(r.Healthy()) ==> r.Healthy()
        invariant done + w.room == start + old(w.room)
        decreases remainingLength
      {
        var part, next := WriteNext(w, byteRange, currentOffset, remainingLength, before, done);
        if part.Err? {
          return Err(part.message);
        }
        remainingLength := remainingLength - part.value;
        done := done + part.value;
        currentOffset := next;
      }
      assert want[..|want|] == want;
      res := Ok(());
    }

    method SetResponseHeaders(w: ResponseWriter, byteRange: ByteRange, item: CacheItem, cached: bool, isRangeRequest: bool)
      requires item.metadata.Some?
      modifies w`header, w`status
      ensures AnnouncesRange(w.status, w.header, byteRange, item.metadata.value.contentTotalLength, isRangeRequest)
      ensures HasHeader(w.header, "Content-Type", item.metadata.value.contentType)
      ensures HasHeader(w.header, CACHE_STATUS, if cached then "HIT" else "MISS")
      // The source's other headers are copied, and nothing else changes.
      ensures forall k | k !in OWN_HEADERS && k != CACHE_STATUS ::
                var headers := item.metadata.value.headers;
                && (k in w.header <==> k in headers || k in old(w.header))
                && (k in w.header ==> w.header[k] == if k in headers then headers[k] else old(w.header)[k])
    {
      CopyHeaders(w, item.metadata.value.headers);
      w.SetHeader(CACHE_STATUS, if cached then "HIT" else "MISS");
      var total := item.metadata.value.contentTotalLength;
      w.SetHeader("Accept-Ranges", "bytes");
      w.SetHeader("Content-Length", FmtContentLength(byteRange.start, byteRange.end, total));
      w.SetHeader("Content-Type", item.metadata.value.contentType);
      if isRangeRequest {
        w.SetHeader("Content-Range", FmtContentRange(byteRange.start, byteRange.end, total));
        w.status := 206;
      } else {
        w.status := 200;
      }
    }

    /** Copies the headers of the source, except those that the proxy sets itself. */
    method CopyHeaders(w: ResponseWriter, headers: map<string, seq<string>>)
      modifies w`header
      ensures forall k ::
                var copied := k in headers && k !in OWN_HEADERS;
                && (k in w.header <==> copied || k in old(w.header))
                && (k in w.header ==> w.header[k] == if copied then headers[k] else old(w.header)[k])
    {
      var todo := headers.Keys;
      while todo != {}
        invariant todo <= headers.Keys
        invariant forall k ::
                    var copied := k in headers && k !in todo && k !in OWN_HEADERS;
                    && (k in w.header <==> copied || k in old(w.header))
                    && (k in w.header ==> w.header[k] == if copied then headers[k] else old(w.header)[k])
      {
        var k :| k in todo;
        todo := todo - {k};
        if k !in OWN_HEADERS {
          w.header := w.header[k := headers[k]];
        }
      }
    }

    /** Answers one request: a refused header, a failed first slice, or the selected bytes. */
    method Proxy(w: ResponseWriter, rangeHeader: string) returns (res: Result<()>)
      requires Valid() && w !in store.Repr && w.body == []
      modifies `turn, `ownFailures, r, store.Repr, w
      ensures Valid() && fresh(store.Repr - old(store.Repr)) && store.failures >= old(store.failures)
      ensures ParseByteRange(rangeHeader).Err? ==> res.Err? && w.status == 400 && w.body == []
      ensures res.Err? ==> w.status == 400 || w.status == 500 || w.status == 200 || w.status == 206
      ensures w.status == 400 || w.status == 500 ==> res.Err? && w.body == []
      ensures w.status == 200 || w.status == 206 ==>
                && ParseByteRange(rangeHeader).Ok? && (w.status == 206 <==> rangeHeader != "")
                && HasHeader(w.header, "Accept-Ranges", "bytes")
                && AnnouncesRange(w.status, w.header, ParseByteRange(rangeHeader).value, |r.source|, rangeHeader != "")
                && WroteWanted(r.source, ParseByteRange(rangeHeader).value, [], w.body, res.Ok?)
      // The body is made of the bytes of the source from the first position to the last, or to the end of
      // the source if there is no last position or it lies behind; all of them, if nothing fails.
      ensures w.status == 200 || w.status == 206 ==>
                var ByteRange(start, end) := ParseByteRange(rangeHeader).value;
                var total := |r.source|;
                var size := if start >= total then 0 else if end == -1 || end >= total then total - start else end + 1 - start;
                && |w.body| <= size && (res.Ok? ==> |w.body| == size)
                && forall i | 0 <= i < |w.body| :: w.body[i] == r.source[start + i]
      // A partial answer names the positions and the length of the source.
      ensures w.status == 206 ==>
                var ByteRange(start, end) := ParseByteRange(rangeHeader).value;
                && "Content-Range" in w.header && |w.header["Content-Range"]| == 1
                && var text := w.header["Content-Range"][0];
                   && ParseContentRangeStartAndEnd(text) == Some((start, if end == -1 then |r.source| - 1 else end))
                   && ParseContentRangeTotalLength(text) == Some(|r.source|)
      // A complete answer announces its length, unless the range starts beyond the source.
      ensures res.Ok? ==>
                && ParseByteRange(rangeHeader).Ok?
                && (HasHeader(w.header, "Content-Length", FormatInt(|w.body|)) <==>
                      ParseByteRange(rangeHeader).value.start <= |r.source|)
      // Nothing fails when neither the server nor the cache does, the client takes everything and the
      // range starts inside.
      ensures res.Ok? ==> ownFailures == old(ownFailures)
      ensures old(r.Healthy()) ==> r.Healthy()
      ensures old(r.Healthy()) && store.failures == old(store.failures) && ParseByteRange(rangeHeader).Ok? ==>
                var ByteRange(start, end) := ParseByteRange(rangeHeader).value;
                && start < |r.source|
                && (end == -1 || end >= |r.source| || old(w.room) >= end + 1 - start)
                && (0 <= end < |r.source| || old(w.room) >= |r.source| - start) ==>
                  res.Ok?
    {
      hide RangeReader.Healthy, Valid, TrueSlice, AnnouncesRange, WroteWanted, FmtContentLength, FormatInt, ParseByteRange,
           ParseContentRangeStartAndEnd, ParseContentRangeTotalLength, Announces;
      Bounds();
      var byteRange := ParseByteRange(rangeHeader);
      if byteRange.Err? {
        w.status := 400;
        return Err("failed to parse Range header");
      }
      var alignedOffset := AlignedOffset(byteRange.value.start, sliceSize);
      var item, cached := GetCacheItem(alignedOffset);
      if item.Err? {
        w.status := 500;
        return Err("failed to get cache item");
      }
      res := Answer(w, byteRange.value, alignedOffset, item.value, cached, rangeHeader != "");
      AnnouncesMeans(r.source, byteRange.value, w.header, w.status, rangeHeader != "", w.body, res.Ok?);
    }

    /** The answer once the first slice is there. */
    method Answer(w: ResponseWriter, byteRange: ByteRange, alignedOffset: int, item: CacheItem, cached: bool, isRangeRequest: bool)
      returns (res: Result<()>)
      requires Valid() && w !in store.Repr && w.body == [] && RangeInBounds(byteRange)
      requires alignedOffset == AlignedOffset(byteRange.start, sliceSize) && TrueSlice(r.source, sliceSize, alignedOffset, item)
      modifies `turn, `ownFailures, r, store.Repr, w
      ensures Valid() && fresh(store.Repr - old(store.Repr)) && store.failures >= old(store.failures)
      ensures AnnouncesRange(w.status, w.header, byteRange, |r.source|, isRangeRequest)
      ensures WroteWanted(r.source, byteRange, [], w.body, res.Ok?)
      ensures BytesOf(r.source, byteRange, w.body, res.Ok?)
      ensures Announces(r.source, byteRange, w.header, w.status, isRangeRequest, w.body, res.Ok?)
      ensures res.Ok? ==> ownFailures == old(ownFailures)
      ensures old(r.Healthy()) ==> r.Healthy()
      ensures old(r.Healthy()) && store.failures == old(store.failures) && byteRange.start < |r.source|
              && old(w.room) >= Size(byteRange, |r.source|) ==>
                res.Ok?
    {
      hide RangeReader.Healthy, Valid, TrueSlice, AnnouncesRange, WroteWanted, FmtContentLength, FormatInt, Wanted, BytesOf, Announces;
      Bounds();
      SliceTotal(r.source, alignedOffset, item);
      SetResponseHeaders(w, byteRange, item, cached, isRangeRequest);
      var announced := w.header;
      res := WriteResponse(w, byteRange, alignedOffset, item);
      AnnouncedAndWritten(r.source, byteRange, announced, w.status, isRangeRequest, w.body, res.Ok?);
      WrittenBytes(r.source, byteRange, w.body, res.Ok?);
      WantedSize(r.source, byteRange);
    }

    lemma Bounds()
      requires Valid()
      ensures sliceSize > 0 && 0 < |r.source| && |r.source| + sliceSize <= MAX_INT64
    {
    }
  }

  /** The status line and headers of an answer to this range. */
  ghost predicate AnnouncesRange(status: int, header: map<string, seq<string>>, byteRange: ByteRange, total: int, isRangeRequest: bool) {
    && status == (if isRangeRequest then 206 else 200)
    && HasHeader(header, "Content-Length", FmtContentLength(byteRange.start, byteRange.end, total))
    && HasHeader(header, "Accept-Ranges", "bytes")
    && (isRangeRequest ==> HasHeader(header, "Content-Range", FmtContentRange(byteRange.start, byteRange.end, total)))
  }

  /** How many bytes the range asks for, as far as the source goes. */
  function Size(byteRange: ByteRange, total: nat): int {
    if byteRange.start >= total then 0
    else if byteRange.end == -1 || byteRange.end >= total then total - byteRange.start
    else byteRange.end + 1 - byteRange.start
  }

  /** The body is made of the bytes that the range asks for; all of them, if it is complete. */
  ghost predicate BytesOf(source: seq<byte>, byteRange: ByteRange, body: seq<byte>, complete: bool)
    requires RangeInBounds(byteRange)
  {
    && |body| <= Size(byteRange, |source|) && (complete ==> |body| == Size(byteRange, |source|))
    && forall i | 0 <= i < |body| :: body[i] == source[byteRange.start + i]
  }

  /** Status line and headers fit the range and, if it is complete, the body. */
  ghost predicate Announces(source: seq<byte>, byteRange: ByteRange, header: map<string, seq<string>>, status: int,
                            isRangeRequest: bool, body: seq<byte>, complete: bool)
  {
    && status == (if isRangeRequest then 206 else 200) && HasHeader(header, "Accept-Ranges", "bytes")
    && (complete ==> (HasHeader(header, "Content-Length", FormatInt(|body|)) <==> byteRange.start <= |source|))
    && (isRangeRequest ==>
          && "Content-Range" in header && |header["Content-Range"]| == 1
          && var text := header["Content-Range"][0];
             && ParseContentRangeStartAndEnd(text)
                == Some((byteRange.start, if byteRange.end == -1 then |source| - 1 else byteRange.end))
             && ParseContentRangeTotalLength(text) == Some(|source|))
  }

  lemma AnnouncesMeans(source: seq<byte>, byteRange: ByteRange, header: map<string, seq<string>>, status: int,
                       isRangeRequest: bool, body: seq<byte>, complete: bool)
    requires Announces(source, byteRange, header, status, isRangeRequest, body, complete)
    ensures status == (if isRangeRequest then 206 else 200) && HasHeader(header, "Accept-Ranges", "bytes")
    ensures complete ==> (HasHeader(header, "Content-Length", FormatInt(|body|)) <==> byteRange.start <= |source|)
    ensures isRangeRequest ==>
              && "Content-Range" in header && |header["Content-Range"]| == 1
              && ParseContentRangeStartAndEnd(header["Content-Range"][0])
                 == Some((byteRange.start, if byteRange.end == -1 then |source| - 1 else byteRange.end))
              && ParseContentRangeTotalLength(header["Content-Range"][0]) == Some(|source|)
  {
    hide FormatInt, ParseContentRangeStartAndEnd, ParseContentRangeTotalLength;
  }

  lemma AnnouncedAndWritten(source: seq<byte>, byteRange: ByteRange, header: map<string, seq<string>>, status: int,
                            isRangeRequest: bool, body: seq<byte>, complete: bool)
    requires RangeInBounds(byteRange) && 0 < |source| <= MAX_INT64
    requires AnnouncesRange(status, header, byteRange, |source|, isRangeRequest)
    requires WroteWanted(source, byteRange, [], body, complete)
    ensures Announces(source, byteRange, header, status, isRangeRequest, body, complete)
  {
    hide FmtContentLength, FormatInt, FmtContentRange, ParseContentRangeStartAndEnd, ParseContentRangeTotalLength;
    AnnouncedLengthIff(byteRange, |source|);
    ContentRangeRoundTrip(byteRange.start, byteRange.end, |source|);
  }

  /** What was written, byte by byte. */
  lemma WrittenBytes(source: seq<byte>, byteRange: ByteRange, body: seq<byte>, complete: bool)
    requires RangeInBounds(byteRange) && WroteWanted(source, byteRange, [], body, complete)
    ensures BytesOf(source, byteRange, body, complete)
  {
    var want := Wanted(source, byteRange);
    WantedSize(source, byteRange);
    assert forall i | 0 <= i < |want| :: want[i] == source[byteRange.start + i];
    hide Wanted, Size;
    assert |body| <= |want| && forall i | 0 <= i < |body| :: body[i] == want[i];
  }

  /** How many bytes are wanted. */
  lemma WantedSize(source: seq<byte>, byteRange: ByteRange)
    requires RangeInBounds(byteRange)
    ensures |Wanted(source, byteRange)| == Size(byteRange, |source|)
  {
  }

  /** Writes the next part of what is wanted. */
  method WritePart(w: ResponseWriter, part: seq<byte>, ghost before: seq<byte>, ghost want: seq<byte>, ghost done: nat)
    returns (ok: bool)
    requires done + |part| <= |want| && part == want[done..done + |part|] && w.body == before + want[..done]
    modifies w`body, w`room
    ensures ok ==> w.body == before + want[..done + |part|]
    ensures !ok ==> exists n: nat :: n <= |want| && w.body == before + want[..n]
    ensures ok <==> |part| <= old(w.room)
    ensures ok ==> w.room == old(w.room) - |part|
  {
    ghost var room := w.room;
    ok := w.Write(part);
    ghost var n := if ok then |part| else room;
    assert want[..done] + part[..n] == want[..done + n];
    assert part[..|part|] == part;
  }

  /** The codec gives this slice back. */
  ghost predicate GivesBack(codec: MetadataCodec, contentType: string, total: int, data: seq<byte>) {
    Storable(codec, SliceItem(contentType, total, data)) && Keeps(codec, SliceItem(contentType, total, data))
  }

  ghost predicate GivesAllBack(codec: MetadataCodec, contentTypes: seq<string>, total: int, sliceSize: nat) {
    forall contentType, data | contentType in contentTypes && |data| <= sliceSize :: GivesBack(codec, contentType, total, data)
  }

  /** For a server with finitely many content types some codec gives every slice back, so that a cache
      on files takes them. */
  lemma SomeCodecTakesSlices(contentTypes: seq<string>, total: int, sliceSize: nat)
    requires |contentTypes| <= MAX_INT64 && sliceSize <= MAX_INT64
    ensures exists codec :: GivesAllBack(codec, contentTypes, total, sliceSize)
  {
    var ms := seq(|contentTypes|, i requires 0 <= i < |contentTypes| => Metadata(map[], contentTypes[i], total));
    SomeCodecKeeps(ms);
    var codec: MetadataCodec :| forall m | m in ms :: codec.Inverts(m) && |codec.encode(m)| <= |ms|;
    forall contentType, data | contentType in contentTypes && |data| <= sliceSize
      ensures GivesBack(codec, contentType, total, data)
    {
      var i :| 0 <= i < |contentTypes| && contentTypes[i] == contentType;
      assert ms[i] == Metadata(map[], contentType, total);
    }
    assert GivesAllBack(codec, contentTypes, total, sliceSize);
  }

  /** What stores of other requests leave in the cache. */
  function Stored(items: map<string, CacheItem>, ops: seq<CacheOp>): map<string, CacheItem> {
    if ops == [] then items
    else
      var op, before := ops[|ops| - 1], Stored(items, ops[..|ops| - 1]);
      if op.Store? then before[op.key := op.item] else before
  }

  lemma KeyIsNotEmpty(hash: string, offset: int, sliceSize: int)
    ensures CacheKey(hash, offset, sliceSize) != ""
  {
  }

  lemma WantedInside(source: seq<byte>, byteRange: ByteRange, done: nat)
    requires byteRange.start >= 0 && done < |Wanted(source, byteRange)|
    ensures byteRange.start + done < |source|
  {
  }

  lemma SliceTotal(source: seq<byte>, offset: nat, item: CacheItem)
    requires exists sliceSize: nat :: TrueSlice(source, sliceSize, offset, item)
    ensures item.metadata.Some? && item.metadata.value.contentTotalLength == |source|
  {
  }

  /** After a complete answer the selected bytes follow `before`; otherwise a prefix of them does. */
  ghost predicate WroteWanted(source: seq<byte>, byteRange: ByteRange, before: seq<byte>, body: seq<byte>, complete: bool)
    requires byteRange.start >= 0
  {
    var want := Wanted(source, byteRange);
    if complete then body == before + want
    else exists n: nat :: n <= |want| && body == before + want[..n]
  }

  /** The bytes of the source that a range selects. */
  ghost function Wanted(source: seq<byte>, byteRange: ByteRange): seq<byte>
    requires byteRange.start >= 0
  {
    var (from, to) := Selected(byteRange, |source|);
    if 0 <= from < to <= |source| then source[from..to] else []
  }

  predicate RangeInBounds(byteRange: ByteRange) {
    && 0 <= byteRange.start <= MAX_INT64 && -1 <= byteRange.end <= MAX_INT64
    && (byteRange.end == -1 || byteRange.start <= byteRange.end)
  }

  /** What remains to be written, and that no 64-bit computation about it overflows. */
  lemma WantedLength(source: seq<byte>, byteRange: ByteRange)
    requires RangeInBounds(byteRange) && |source| <= MAX_INT64
    ensures var length, want := ContentLength(byteRange.start, byteRange.end, |source|), Wanted(source, byteRange);
            InInt64(length) && (length == |want| || (length < 0 && want == []))
  {
  }

  /** The part of the first slice that is wanted, and where the second slice goes on. */
  lemma FirstPart(source: seq<byte>, sliceSize: nat, byteRange: ByteRange, alignedOffset: int, first: CacheItem, length: nat)
    requires RangeInBounds(byteRange) && length == |Wanted(source, byteRange)| > 0
    requires 0 <= alignedOffset <= byteRange.start < alignedOffset + sliceSize
    requires TrueSlice(source, sliceSize, alignedOffset, first)
    ensures var sliceOffset, want := byteRange.start - alignedOffset, Wanted(source, byteRange);
            && sliceOffset < |first.data|
            && var n := if |first.data| - sliceOffset > length then length else |first.data| - sliceOffset;
               && first.data[sliceOffset..sliceOffset + n] == want[..n]
               && (length > n ==> byteRange.start + n == alignedOffset + sliceSize)
  {
    var (from, to) := Selected(byteRange, |source|);
    var sliceOffset := from - alignedOffset;
    var n := if |first.data| - sliceOffset > length then length else |first.data| - sliceOffset;
    var sliceEnd := alignedOffset + |first.data|;
    SliceBounds(source, alignedOffset, sliceSize);
    assert first.data == source[alignedOffset..sliceEnd];
    SliceOfSlice(source, alignedOffset, sliceEnd, sliceOffset, sliceOffset + n);
    SliceOfSlice(source, from, to, 0, n);
  }

  lemma SliceBounds(source: seq<byte>, offset: nat, n: nat)
    requires offset < |source|
    ensures var s := Slice(source, offset, n);
            && |s| == (if offset + n <= |source| then n else |source| - offset)
            && s == source[offset..offset + |s|]
  {
    assert source[offset..] == source[offset..|source|];
  }

  lemma SliceOfSlice<T>(s: seq<T>, from: nat, to: nat, i: nat, j: nat)
    requires from <= to <= |s| && i <= j <= to - from
    ensures s[from..to][i..j] == s[from + i..from + j]
  {
    var a, b := s[from..to][i..j], s[from + i..from + j];
    assert |a| == |b| && forall k | 0 <= k < j - i :: a[k] == s[from..to][i + k] == s[from + i + k] == b[k];
  }

  /** The part of a later slice that is wanted, and where the next one goes on. */
  lemma NextPart(source: seq<byte>, sliceSize: nat, byteRange: ByteRange, done: nat, currentOffset: int, item: CacheItem)
    requires byteRange.start >= 0 && done < |Wanted(source, byteRange)|
    requires byteRange.start + done == currentOffset && sliceSize > 0
    requires TrueSlice(source, sliceSize, currentOffset, item)
    ensures var want := Wanted(source, byteRange);
            var n := if |item.data| > |want| - done then |want| - done else |item.data|;
            && n > 0 && item.data[..n] == want[done..done + n]
            && (done + n < |want| ==> n == sliceSize)
            && currentOffset < |source|
  {
    var (from, to) := Selected(byteRange, |source|);
    var sliceEnd := currentOffset + |item.data|;
    SliceBounds(source, currentOffset, sliceSize);
    var n := if |item.data| > to - from - done then to - from - done else |item.data|;
    assert item.data == source[currentOffset..sliceEnd];
    SliceOfSlice(source, currentOffset, sliceEnd, 0, n);
    SliceOfSlice(source, from, to, done, done + n);
  }

  lemma OtherStoreIsTruthful(source: seq<byte>, hash: string, sliceSize: nat, items: map<string, CacheItem>, op: CacheOp)
    requires op.Store? && TruthfulOp(source, hash, sliceSize, op) && Truthful(source, hash, sliceSize, items)
    ensures Truthful(source, hash, sliceSize, items[op.key := op.item])
  {
    hide CacheKey, TrueSlice;
  }

  lemma HitIsTrue(source: seq<byte>, hash: string, sliceSize: nat, items: map<string, CacheItem>, offset: nat)
    requires Truthful(source, hash, sliceSize, items) && CacheKey(hash, offset, sliceSize) in items
    ensures TrueSlice(source, sliceSize, offset, items[CacheKey(hash, offset, sliceSize)])
  {
    hide CacheKey, TrueSlice;
  }
}
