/** Serving a protected file: the Range header, the ciphertext window, the
    download and the decrypted stream together. */
module ProtectedBytes {
  import opened Wrappers
  import opened Container
  import opened Readers
  import opened CipherStream
  import opened AnyBytes
  import RangeHeader

  // The plaintext range of a request: the header's, or else the whole file. It
  // is non-empty, except that an empty file has only (0, 0), so its ciphertext
  // window always exists.
  function RequestedRange(header: Option<string>, plainLen: nat): (r: Result<(nat, nat), RangeHeader.RangeError>)
    ensures r.Ok? ==> var (start, end) := r.value;
                      (start < end <= plainLen || start == end == plainLen == 0)
                      && CipherRangeForPlain(start, end, plainLen).Ok?
  {
    if header.None? then Ok((0, plainLen))
    else
      match RangeHeader.ParseRange(header.value, plainLen)
      case Err(e) => Err(e)
      case Ok(None) => Ok((0, plainLen))
      case Ok(Some(range)) => Ok(range)
  }

  datatype Head = Head(status: nat, contentLength: nat, contentRange: Option<(nat, nat, nat)>)

  // Status and length headers of the response; end - 1 is a u64 and wraps.
  function ResponseHead(start: nat, end: nat, plainLen: nat): Head
    requires start <= end
  {
    if start != 0 || end != plainLen then
      Head(206, end - start, Some((start, (end + U64_LIMIT - 1) % U64_LIMIT, plainLen)))
    else Head(200, end - start, None)
  }

  // What the storage host sends for a window of ciphertext, given by its start and
  // length: a stream of the window only, or of the whole container.
  datatype Download = Download(cipher: seq<NetItem>, ranged: bool)
  type Host = (nat, nat) -> Option<Download>

  datatype ServeError = NotSatisfiable(message: string) | Unreachable

  function Served(a: Aead, key: Key, start: nat, end: nat, plainLen: nat, host: Host)
    : Result<(Head, Output), ServeError>
    requires a.Lawful()
  {
    if start > end || end > plainLen then Err(NotSatisfiable("bad range"))
    else
      var (cipherStart, cipherLen) := CipherRangeForPlain(start, end, plainLen).value;
      match host(cipherStart, cipherLen)
      case None => Err(Unreachable)
      case Some(d) =>
        Ok((ResponseHead(start, end, plainLen), Streamed(a, key, start, end, plainLen, d.cipher, d.ranged)))
  }

  method ServeProtectedBytes(a: Aead, key: Key, start: nat, end: nat, plainLen: nat, host: Host)
    returns (r: Result<(Head, Output), ServeError>)
    requires a.Lawful()
    ensures r == Served(a, key, start, end, plainLen, host)
    ensures r.Err? && r.error.NotSatisfiable? <==> start > end || end > plainLen
    ensures start <= end <= plainLen ==>
      (r.Err? <==> DownloadFor(start, end, plainLen, host).None?) && (r.Err? ==> r.error.Unreachable?)
  {
    if start > end || end > plainLen {
      return Err(NotSatisfiable("bad range"));
    }
    var window := CipherRangeForPlain(start, end, plainLen);
    var (cipherStart, cipherLen) := window.value;
    var download := host(cipherStart, cipherLen);
    if download.None? {
      return Err(Unreachable);
    }
    var out := DecryptCipherStream(a, key, download.value.cipher, start, end, plainLen, start / PLAINTEXT_CHUNK_LEN,
      if download.value.ranged then 0 else cipherStart);
    r := Ok((ResponseHead(start, end, plainLen), out));
  }

  function Answer(a: Aead, key: Key, header: Option<string>, plainLen: nat, host: Host)
    : Result<(Head, Output), ServeError>
    requires a.Lawful()
  {
    match RequestedRange(header, plainLen)
    case Err(e) => Err(NotSatisfiable(e.message))
    case Ok((start, end)) => Served(a, key, start, end, plainLen, host)
  }

  /** A GET of a file with a key. */
  method GetContent(a: Aead, key: Key, header: Option<string>, plainLen: nat, host: Host)
    returns (r: Result<(Head, Output), ServeError>)
    requires a.Lawful()
    ensures r == Answer(a, key, header, plainLen, host)
  {
    var range := RequestedRange(header, plainLen);
    if range.Err? {
      return Err(NotSatisfiable(range.error.message));
    }
    r := ServeProtectedBytes(a, key, range.value.0, range.value.1, plainLen, host);
  }

  function Streamed(a: Aead, key: Key, start: nat, end: nat, plainLen: nat, cipher: seq<NetItem>, ranged: bool): Output
    requires a.Lawful() && start <= end <= plainLen
  {
    var (cipherStart, cipherLen) := CipherRangeForPlain(start, end, plainLen).value;
    StreamAfterSkip(a, key, Delivered(cipher), Ending(cipher), if ranged then 0 else cipherStart,
      start / PLAINTEXT_CHUNK_LEN * PLAINTEXT_CHUNK_LEN, plainLen, start, end)
  }

  // What an honest storage host sends: the window, or the whole container.
  function Stored(a: Aead, key: Key, nonces: nat -> Nonce, plain: bytes, start: nat, end: nat, ranged: bool): bytes
    requires a.Lawful() && (start < end <= |plain| || start == end == |plain| == 0)
  {
    var c := ContainerOf(a, key, nonces, plain);
    if !ranged then c
    else if start == end then []
    else
      var (cipherStart, cipherLen) := CipherRangeForPlain(start, end, |plain|).value;
      CipherRangeIsChunkWindow(a, key, nonces, plain, start, end);
      c[cipherStart..cipherStart + cipherLen]
  }

  // How many of those bytes the range needs.
  function Needed(start: nat, end: nat, plainLen: nat, ranged: bool): nat
    requires start <= end <= plainLen
  {
    var (cipherStart, cipherLen) := CipherRangeForPlain(start, end, plainLen).value;
    if ranged then cipherLen else cipherStart + cipherLen
  }

  // How the bytes d, a prefix of the container c, lie to its window [from, to).
  lemma PrefixSlices(d: bytes, c: bytes, from: nat, to: nat)
    requires d <= c && from <= to <= |c|
    ensures |d| >= to ==> d[from..] == c[from..to] + d[to..]
    ensures from <= |d| < to ==> d[from..] == c[from..to][..|d| - from]
  {
  }

  // The window behind `skip` bytes, however much of it arrives.
  lemma WindowArrives(
      a: Aead, key: Key, nonces: nat -> Nonce, plain: bytes, start: nat, end: nat, d: bytes, c: bytes, skip: nat,
      window: bytes, ending: StreamError)
    requires a.Lawful() && start < end <= |plain|
    requires window == WindowFrom(a, key, nonces, plain, start / PLAINTEXT_CHUNK_LEN, end)
    requires d <= c && skip + |window| <= |c| && c[skip..skip + |window|] == window
    ensures var off := start / PLAINTEXT_CHUNK_LEN * PLAINTEXT_CHUNK_LEN;
            var out := StreamAfterSkip(a, key, d, ending, skip, off, |plain|, start, end);
            if |d| >= skip + |window| then Delivers(out, plain[start..end])
            else DeliversPart(out, plain[start..end], ending)
  {
    PrefixSlices(d, c, skip, skip + |window|);
    if |d| >= skip + |window| {
      SliceStreams(a, key, nonces, plain, start, end, d[skip..], d[skip + |window|..], ending);
    } else if |d| >= skip {
      CutSliceStreams(a, key, nonces, plain, start, end, d[skip..], |d| - skip, ending);
    } else {
      ErrorOnly(plain[start..end], ending);
    }
  }

  // The window of a range in full, and whatever follows it.
  lemma SliceStreams(
      a: Aead, key: Key, nonces: nat -> Nonce, plain: bytes, start: nat, end: nat, avail: bytes, x: bytes,
      ending: StreamError)
    requires a.Lawful() && start < end <= |plain|
    requires avail == WindowFrom(a, key, nonces, plain, start / PLAINTEXT_CHUNK_LEN, end) + x
    ensures var first := start / PLAINTEXT_CHUNK_LEN;
            var out := StreamFrom(a, key, avail, ending, first * PLAINTEXT_CHUNK_LEN, |plain|, start, end);
            Delivers(out, plain[start..end])
  {
    var first := start / PLAINTEXT_CHUNK_LEN;
    assert Max(start, first * PLAINTEXT_CHUNK_LEN) == start;
    WindowStreams(a, key, nonces, plain, first, start, end, avail, x, ending);
  }

  // The window of a range cut at byte k.
  lemma CutSliceStreams(
      a: Aead, key: Key, nonces: nat -> Nonce, plain: bytes, start: nat, end: nat, avail: bytes, k: nat,
      ending: StreamError)
    requires a.Lawful() && start < end <= |plain|
    requires k < |WindowFrom(a, key, nonces, plain, start / PLAINTEXT_CHUNK_LEN, end)|
    requires avail == WindowFrom(a, key, nonces, plain, start / PLAINTEXT_CHUNK_LEN, end)[..k]
    ensures var first := start / PLAINTEXT_CHUNK_LEN;
            var out := StreamFrom(a, key, avail, ending, first * PLAINTEXT_CHUNK_LEN, |plain|, start, end);
            DeliversPart(out, plain[start..end], ending)
  {
    var first := start / PLAINTEXT_CHUNK_LEN;
    assert Max(start, first * PLAINTEXT_CHUNK_LEN) == start;
    CutWindowStreams(a, key, nonces, plain, first, start, end, k, ending);
  }

  // A non-empty range, however much of it arrives.
  lemma RangeStreams(
      a: Aead, key: Key, nonces: nat -> Nonce, plain: bytes, start: nat, end: nat, cipher: seq<NetItem>, ranged: bool)
    requires a.Lawful() && start < end <= |plain|
    requires Delivered(cipher) <= Stored(a, key, nonces, plain, start, end, ranged)
    ensures var out := Streamed(a, key, start, end, |plain|, cipher, ranged);
            if |Delivered(cipher)| >= Needed(start, end, |plain|, ranged) then Delivers(out, plain[start..end])
            else DeliversPart(out, plain[start..end], Ending(cipher))
  {
    var c := ContainerOf(a, key, nonces, plain);
    var (cs, cl) := CipherRangeForPlain(start, end, |plain|).value;
    CipherRangeIsChunkWindow(a, key, nonces, plain, start, end);
    var window := c[cs..cs + cl];
    if ranged {
      assert window[0..cl] == window;
      WindowArrives(a, key, nonces, plain, start, end, Delivered(cipher), window, 0, window, Ending(cipher));
    } else {
      WindowArrives(a, key, nonces, plain, start, end, Delivered(cipher), c, cs, window, Ending(cipher));
    }
  }

  // An empty file sends nothing but a possible error.
  lemma EmptyFileStreams(a: Aead, key: Key, cipher: seq<NetItem>, ranged: bool)
    requires a.Lawful()
    ensures Streamed(a, key, 0, 0, 0, cipher, ranged)
            == if |Delivered(cipher)| >= Needed(0, 0, 0, ranged) then [] else [Err(Ending(cipher))]
  {
  }

  // A partial response is one of a proper part of the file, and names it; any
  // other is of the whole file.
  lemma HeadNamesSlice(start: nat, end: nat, plainLen: nat)
    requires start < end <= plainLen <= I64_MAX || start == end == plainLen == 0
    ensures ResponseHead(start, end, plainLen)
            == if end - start == plainLen then Head(200, plainLen, None)
               else Head(206, end - start, Some((start, end - 1, plainLen)))
  {
  }

  // ---------- The answer to a request ----------

  // The host sends, from its start, the window it was asked for or the whole
  // container; asked for nothing it may send anything and call it a window.
  ghost predicate Honest(host: Host, c: bytes) {
    forall from: nat, len: nat :: from + len <= |c| && host(from, len).Some? ==>
      var d := host(from, len).value;
      if !d.ranged then Delivered(d.cipher) <= c else len > 0 ==> Delivered(d.cipher) <= c[from..from + len]
  }

  // The answer is the slice [start, end) of the file, under a head that names it.
  // If the download stops early, a proper part of the slice and one error.
  ghost predicate AnswersSlice(
    r: Result<(Head, Output), ServeError>, plain: bytes, start: nat, end: nat, download: Option<Download>)
    requires start <= end <= |plain|
  {
    if download.None? then r == Err(Unreachable)
    else
      var d := download.value;
      r.Ok? && (start < end || plain == [])
      && r.value.0 == (if end - start == |plain| then Head(200, |plain|, None)
                       else Head(206, end - start, Some((start, end - 1, |plain|))))
      && if |Delivered(d.cipher)| >= Needed(start, end, |plain|, d.ranged) then Delivers(r.value.1, plain[start..end])
         else if plain == [] then r.value.1 == [Err(Ending(d.cipher))]
         else DeliversPart(r.value.1, plain[start..end], Ending(d.cipher))
  }

  // The download for a slice.
  function DownloadFor(start: nat, end: nat, plainLen: nat, host: Host): Option<Download>
    requires start <= end <= plainLen
  {
    var (cipherStart, cipherLen) := CipherRangeForPlain(start, end, plainLen).value;
    host(cipherStart, cipherLen)
  }

  lemma ServedSlice(
      a: Aead, key: Key, nonces: nat -> Nonce, plain: bytes, start: nat, end: nat, host: Host)
    requires a.Lawful() && |plain| <= I64_MAX && Honest(host, ContainerOf(a, key, nonces, plain))
    requires start < end <= |plain| || start == end == |plain| == 0
    ensures AnswersSlice(Served(a, key, start, end, |plain|, host), plain, start, end,
                         DownloadFor(start, end, |plain|, host))
  {
    var download := DownloadFor(start, end, |plain|, host);
    if download.Some? {
      HeadNamesSlice(start, end, |plain|);
      if start < end {
        CipherRangeIsChunkWindow(a, key, nonces, plain, start, end);
        RangeStreams(a, key, nonces, plain, start, end, download.value.cipher, download.value.ranged);
      } else {
        EmptyFileStreams(a, key, download.value.cipher, download.value.ranged);
      }
    }
  }

  /** A Range header that RFC 9110 allows, with no number too long for u64, is
      answered with the positions the standard gives it in the file, whatever
      pieces the network makes of the ciphertext, and refused if it has none. */
  lemma SpecIsServed(
      a: Aead, key: Key, nonces: nat -> Nonce, plain: bytes, spec: RangeHeader.RangeSpec, host: Host)
    requires a.Lawful() && |plain| <= I64_MAX && Honest(host, ContainerOf(a, key, nonces, plain))
    requires spec.WellFormed() && !spec.Overlong()
    ensures var r, positions := Answer(a, key, Some(spec.Text()), |plain|, host), spec.Positions(|plain|);
            if positions.None? then r.Err? && r.error.NotSatisfiable?
            else
              var (start, end) := positions.value;
              start < end <= |plain|
              && AnswersSlice(r, plain, start, end, DownloadFor(start, end, |plain|, host))
  {
    RangeHeader.ParseRangeMeetsStandard(spec, |plain|);
    if spec.Positions(|plain|).Some? {
      var (start, end) := spec.Positions(|plain|).value;
      assert RequestedRange(Some(spec.Text()), |plain|) == Ok((start, end));
      ServedSlice(a, key, nonces, plain, start, end, host);
    }
  }

  /** Without a Range header, or with one that asks for no byte range, the answer
      is the whole file. */
  lemma WholeIsServed(a: Aead, key: Key, nonces: nat -> Nonce, plain: bytes, header: Option<string>, host: Host)
    requires a.Lawful() && |plain| <= I64_MAX && Honest(host, ContainerOf(a, key, nonces, plain))
    requires header.Some? ==> !RangeHeader.AsksForRange(header.value)
    ensures AnswersSlice(Answer(a, key, header, |plain|, host), plain, 0, |plain|,
                         DownloadFor(0, |plain|, |plain|, host))
  {
    if header.Some? {
      RangeHeader.IgnoredExactly(header.value, |plain|);
    }
    ServedSlice(a, key, nonces, plain, 0, |plain|, host);
  }

  /** Whatever the header, an answer is a slice of the file or a refusal. */
  lemma EveryAnswer(a: Aead, key: Key, nonces: nat -> Nonce, plain: bytes, header: Option<string>, host: Host)
    returns (start: nat, end: nat)
    requires a.Lawful() && |plain| <= I64_MAX && Honest(host, ContainerOf(a, key, nonces, plain))
    ensures var r := Answer(a, key, header, |plain|, host);
            start <= end <= |plain|
            && ((r.Err? && r.error.NotSatisfiable?)
                || AnswersSlice(r, plain, start, end, DownloadFor(start, end, |plain|, host)))
  {
    start, end := 0, 0;
    if RequestedRange(header, |plain|).Ok? {
      start, end := RequestedRange(header, |plain|).value.0, RequestedRange(header, |plain|).value.1;
      ServedSlice(a, key, nonces, plain, start, end, host);
    }
  }

  // ---------- A host that is not honest ----------

  // The bytes behind the container's header, as far as the download shows them:
  // a window is put behind `front`, of which nothing is used.
  function Seen(front: bytes, d: Download): bytes {
    if d.ranged then front + Delivered(d.cipher)
    else if |Delivered(d.cipher)| >= HEADER_LEN then Delivered(d.cipher)[HEADER_LEN..] else []
  }

  // The stream, in terms of those bytes.
  lemma StreamOfSeen(a: Aead, key: Key, start: nat, end: nat, plainLen: nat, d: Download, front: bytes)
    requires a.Lawful() && start < end <= plainLen && |front| == At(plainLen, start / PLAINTEXT_CHUNK_LEN)
    ensures var out, body := Streamed(a, key, start, end, plainLen, d.cipher, d.ranged), Seen(front, d);
            var first := start / PLAINTEXT_CHUNK_LEN;
            var off := Min(first * PLAINTEXT_CHUNK_LEN, plainLen);
            (|body| >= At(plainLen, first)
             && out == StreamFrom(a, key, body[At(plainLen, first)..], Ending(d.cipher), off, plainLen, start, end))
            || (!Complete(body, plainLen, first) && out == [Err(Ending(d.cipher))])
  {
    var first := start / PLAINTEXT_CHUNK_LEN;
    var at, body := At(plainLen, first), Seen(front, d);
    WindowGeometry(start, end, plainLen);
    Places(plainLen, first);
    if d.ranged {
      assert body[at..] == Delivered(d.cipher) == Delivered(d.cipher)[0..];
    } else if |Delivered(d.cipher)| >= HEADER_LEN + at {
      assert body[at..] == Delivered(d.cipher)[HEADER_LEN + at..];
    }
  }

  /** Whatever the host sends, the body is the file's bytes of the chunks that
      arrive and open, up to the first that does not, and then that one's error. */
  lemma AnySlice(a: Aead, key: Key, start: nat, end: nat, plainLen: nat, d: Download, front: bytes)
    returns (m: nat)
    requires a.Lawful() && start < end <= plainLen && |front| == At(plainLen, start / PLAINTEXT_CHUNK_LEN)
    ensures var out, body := Streamed(a, key, start, end, plainLen, d.cipher, d.ranged), Seen(front, d);
            var first, lim := start / PLAINTEXT_CHUNK_LEN, (end - 1) / PLAINTEXT_CHUNK_LEN + 1;
            GoodBelow(a, key, body, plainLen, first, lim, m)
            && Ends(out, if m < lim then Some(StreamErrorAt(a, key, body, plainLen, m, Ending(d.cipher))) else None)
            && Shows(a, key, body, plainLen, Payload(out), start, GoesOn(start, end, m))
  {
    var first, lim := start / PLAINTEXT_CHUNK_LEN, (end - 1) / PLAINTEXT_CHUNK_LEN + 1;
    var out, body := Streamed(a, key, start, end, plainLen, d.cipher, d.ranged), Seen(front, d);
    m := GoodBelowEnd(a, key, body, plainLen, first, lim);
    assert GoesOn(start, end, first) == start;
    StreamOfSeen(a, key, start, end, plainLen, d, front);
    if Complete(body, plainLen, first) || out != [Err(Ending(d.cipher))] {
      StreamExactly(a, key, body, Ending(d.cipher), plainLen, start, end, first, lim, m);
    } else {
      assert !Good(a, key, body, plainLen, first);
      assert m == first;
      OnlyError(Ending(d.cipher));
    }
  }
}
