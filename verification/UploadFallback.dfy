/**
 Uploading over QUIC with a replay over HTTP: chunks that QUIC takes are kept in
 a buffer, in memory up to a threshold and in a spill file beyond it, so that a
 failed attempt can send everything again.
 */
module UploadFallback {
  import opened Wrappers
  import RangeHeader

  const QUIC_SPILL_THRESHOLD_BYTES: nat := 8 * 1024 * 1024

  function Flatten(chunks: seq<bytes>): bytes {
    if chunks == [] then [] else Flatten(chunks[..|chunks| - 1]) + chunks[|chunks| - 1]
  }

  lemma FlattenPush(chunks: seq<bytes>, chunk: bytes)
    ensures Flatten(chunks + [chunk]) == Flatten(chunks) + chunk
  {
    assert (chunks + [chunk])[..|chunks|] == chunks;
  }

  // ---------- The disk ----------

  // What the disk does: operation n (the creation of the spill file, a write to
  // it, or its reading back) fails or not, and a failing write has taken some of
  // its chunk by then.
  datatype Plan = Plan(fails: nat -> bool, partial: nat -> nat) {
    // The part of a non-empty chunk that a failing write leaves in the file.
    function Part(n: nat, chunk: bytes): (part: bytes)
      requires chunk != []
      ensures part < chunk
    {
      chunk[..partial(n) % |chunk|]
    }
  }

  const NO_FAULTS := Plan((n: nat) => false, (n: nat) => 0)

  // No operation in [from, to) fails.
  predicate Clean(plan: Plan, from: nat, to: nat) {
    forall op :: from <= op < to ==> !plan.fails(op)
  }

  // How many of `chunks` are written in full from operation n on, and the
  // operation after the last one tried. Empty chunks need none.
  datatype Moved = Moved(count: nat, ops: nat)

  function Move(plan: Plan, chunks: seq<bytes>, n: nat): (m: Moved)
    ensures m.count <= |chunks| && n <= m.ops
  {
    if chunks == [] then Moved(0, n)
    else
      var last := |chunks| - 1;
      var before := Move(plan, chunks[..last], n);
      if before.count < last then before
      else if chunks[last] == [] then Moved(last + 1, before.ops)
      else Moved(if plan.fails(before.ops) then last else last + 1, before.ops + 1)
  }

  // ---------- The buffer ----------

  // The buffer's fields as a value; `spill` is the content of the spill file and
  // `ops` the number of disk operations so far.
  datatype Buffer = Buffer(ram: seq<bytes>, ramBytes: nat, spilledBytes: nat, spill: Option<bytes>, ops: nat) {
    // What is kept for a replay.
    function Contents(): bytes {
      if spill.Some? then spill.value else Flatten(ram)
    }

    predicate IsEmpty() {
      ram == [] && spilledBytes == 0
    }

    // Holds after any pushes, failed ones included: memory never exceeds the
    // threshold, and a spill file leaves nothing in memory.
    ghost predicate Valid() {
      |Flatten(ram)| <= ramBytes <= QUIC_SPILL_THRESHOLD_BYTES && (spill.Some? ==> ram == [])
    }

    // Holds as long as no push has failed.
    ghost predicate Intact() {
      Valid()
      && (spill.None? ==> ramBytes == |Flatten(ram)| && spilledBytes == 0)
      && (spill.Some? ==> spilledBytes == |spill.value| > QUIC_SPILL_THRESHOLD_BYTES)
    }
  }

  const EMPTY_BUFFER := Buffer([], 0, 0, None, 0)

  // The buffer after a push, and whether the push succeeds. Below the threshold
  // it cannot fail. A failed write to the spill file leaves part of the chunk in
  // it; a failed move to a new spill file keeps nothing, or everything if the
  // file could not even be created.
  function PushOn(plan: Plan, b: Buffer, chunk: bytes): (Buffer, bool) {
    if b.spill.Some? then
      if chunk != [] && plan.fails(b.ops) then
        (b.(spill := Some(b.spill.value + plan.Part(b.ops, chunk)), ops := b.ops + 1), false)
      else
        (b.(spill := Some(b.spill.value + chunk), spilledBytes := b.spilledBytes + |chunk|,
            ops := if chunk == [] then b.ops else b.ops + 1), true)
    else if b.ramBytes + |chunk| > QUIC_SPILL_THRESHOLD_BYTES then
      if plan.fails(b.ops) then (b.(ops := b.ops + 1), false)
      else
        var all := b.ram + [chunk];
        var m := Move(plan, all, b.ops + 1);
        (Buffer([], b.ramBytes, b.spilledBytes + |Flatten(all[..m.count])|,
                if m.count == |all| then Some(Flatten(all)) else None, m.ops), m.count == |all|)
    else (b.(ram := b.ram + [chunk], ramBytes := b.ramBytes + |chunk|), true)
  }

  // What a push from b to b' does to the content.
  ghost predicate Pushed(b: Buffer, chunk: bytes, ok: bool, b': Buffer) {
    b'.Valid()
    && (ok ==> b'.Contents() == b.Contents() + chunk)
    && (ok && b.Intact() ==> b'.Intact() && !b'.IsEmpty())
    && (!ok ==> b'.Contents() < b.Contents() + chunk)
  }

  // A push that succeeds appends its chunk, and leaves the buffer non-empty even
  // if the chunk is. A push that fails loses data.
  lemma PushKeeps(plan: Plan, b: Buffer, chunk: bytes)
    requires b.Valid()
    ensures var (b', ok) := PushOn(plan, b, chunk);
            b.ops <= b'.ops && Pushed(b, chunk, ok, b')
  {
    if b.spill.Some? {
      PushToFile(plan, b, chunk);
    } else if b.ramBytes + |chunk| > QUIC_SPILL_THRESHOLD_BYTES {
      PushMoves(plan, b, chunk);
    } else {
      FlattenPush(b.ram, chunk);
    }
  }

  lemma PushToFile(plan: Plan, b: Buffer, chunk: bytes)
    requires b.Valid() && b.spill.Some?
    ensures var (b', ok) := PushOn(plan, b, chunk);
            Pushed(b, chunk, ok, b')
  {
  }

  lemma PushMoves(plan: Plan, b: Buffer, chunk: bytes)
    requires b.Valid() && b.spill.None? && b.ramBytes + |chunk| > QUIC_SPILL_THRESHOLD_BYTES
    ensures var (b', ok) := PushOn(plan, b, chunk);
            Pushed(b, chunk, ok, b')
  {
    var all := b.ram + [chunk];
    FlattenPush(b.ram, chunk);
    assert all[..|all|] == all;
    if PushOn(plan, b, chunk).1 {
      assert Flatten(all[..|all|]) == Flatten(b.ram) + chunk;
    }
  }

  lemma {:induction false} MoveFailsExactly(plan: Plan, chunks: seq<bytes>, n: nat)
    ensures var good := Move(NO_FAULTS, chunks, n);
            good.count == |chunks|
            && if Clean(plan, n, good.ops) then Move(plan, chunks, n) == good
               else Move(plan, chunks, n).count < |chunks|
    decreases |chunks|
  {
    if chunks != [] {
      MoveFailsExactly(plan, chunks[..|chunks| - 1], n);
    }
  }

  // A push fails exactly if one of the disk operations fails that it needs on a
  // disk without faults.
  lemma PushFailsExactly(plan: Plan, b: Buffer, chunk: bytes)
    ensures var (good, ok) := PushOn(NO_FAULTS, b, chunk);
            ok && b.ops <= good.ops
            && if Clean(plan, b.ops, good.ops) then PushOn(plan, b, chunk) == (good, true)
               else !PushOn(plan, b, chunk).1
  {
    MoveFailsExactly(plan, b.ram + [chunk], b.ops + 1);
  }

  // The disk as an object: it counts the operations.
  class Disk {
    const plan: Plan
    var ops: nat

    constructor (plan: Plan)
      ensures this.plan == plan && ops == 0
    {
      this.plan, ops := plan, 0;
    }

    // Creating a file or reading one back.
    method Try() returns (ok: bool)
      modifies this
      ensures ok == !plan.fails(old(ops)) && ops == old(ops) + 1
    {
      ok := !plan.fails(ops);
      ops := ops + 1;
    }
  }

  class SpillFile {
    var content: bytes

    constructor ()
      ensures content == []
    {
      content := [];
    }

    method WriteAll(disk: Disk, chunk: bytes) returns (ok: bool)
      modifies this, disk
      ensures ok <==> chunk == [] || !disk.plan.fails(old(disk.ops))
      ensures disk.ops == if chunk == [] then old(disk.ops) else old(disk.ops) + 1
      ensures content == old(content) + if ok then chunk else disk.plan.Part(old(disk.ops), chunk)
    {
      ok := true;
      if chunk != [] {
        var part := disk.plan.Part(disk.ops, chunk);
        ok := disk.Try();
        if !ok {
          content := content + part;
          return;
        }
      }
      content := content + chunk;
    }
  }

  class QuicFallbackBuffer {
    var ram: seq<bytes>
    var ramBytes: nat
    var spilledBytes: nat
    var spill: SpillFile?
    const disk: Disk

    function State(): Buffer
      reads this, spill, disk
    {
      Buffer(ram, ramBytes, spilledBytes, if spill != null then Some(spill.content) else None, disk.ops)
    }

    constructor (disk: Disk)
      ensures this.disk == disk && spill == null && State() == EMPTY_BUFFER.(ops := disk.ops)
    {
      ram, ramBytes, spilledBytes, spill := [], 0, 0, null;
      this.disk := disk;
    }

    predicate IsEmpty()
      reads this, spill, disk
      ensures IsEmpty() == State().IsEmpty()
    {
      ram == [] && spilledBytes == 0
    }

    method Push(chunk: bytes) returns (ok: bool)
      modifies this, spill, disk
      ensures (State(), ok) == PushOn(disk.plan, old(State()), chunk)
      ensures spill == old(spill) || fresh(spill)
    {
      if spill != null {
        ok := spill.WriteAll(disk, chunk);
        if ok {
          spilledBytes := spilledBytes + |chunk|;
        }
        return;
      }
      if ramBytes + |chunk| > QUIC_SPILL_THRESHOLD_BYTES {
        ok := disk.Try();
        if ok {
          ok := SpillAll(chunk);
        }
        return;
      }
      ramBytes := ramBytes + |chunk|;
      ram := ram + [chunk];
      ok := true;
    }

    // Moves everything to a new spill file. If that fails part-way, the chunks
    // taken from memory are gone, and ramBytes still counts them.
    method SpillAll(chunk: bytes) returns (ok: bool)
      requires spill == null
      modifies this, disk
      ensures var all := old(ram) + [chunk];
              var m := Move(disk.plan, all, old(disk.ops));
              ok == (m.count == |all|)
              && State() == Buffer([], old(ramBytes), old(spilledBytes) + |Flatten(all[..m.count])|,
                                   if ok then Some(Flatten(all)) else None, m.ops)
      ensures spill == null || fresh(spill)
    {
      MoveLast(disk.plan, ram, chunk, disk.ops);
      var file := new SpillFile();
      var draining := ram;
      ram := [];
      ok := Drain(file, draining);
      if !ok {
        return;
      }
      ok := file.WriteAll(disk, chunk);
      if ok {
        spilledBytes := spilledBytes + |chunk|;
        spill := file;
      }
    }

    // Writes the chunks taken from memory.
    method Drain(file: SpillFile, draining: seq<bytes>) returns (ok: bool)
      requires file.content == [] && file != spill
      modifies this`spilledBytes, file, disk
      ensures var m := Move(disk.plan, draining, old(disk.ops));
              ok == (m.count == |draining|) && disk.ops == m.ops
              && spilledBytes == old(spilledBytes) + |Flatten(draining[..m.count])|
      ensures ok ==> file.content == Flatten(draining)
    {
      for i := 0 to |draining|
        invariant file.content == Flatten(draining[..i])
        invariant spilledBytes == old(spilledBytes) + |Flatten(draining[..i])|
        invariant Move(disk.plan, draining[..i], old(disk.ops)) == Moved(i, disk.ops)
      {
        MoveNext(disk.plan, draining, i, old(disk.ops));
        var wrote := file.WriteAll(disk, draining[i]);
        if !wrote {
          return false;
        }
        spilledBytes := spilledBytes + |draining[i]|;
      }
      assert draining[..|draining|] == draining;
      ok := true;
    }

    // The chunks to replay; fails if the spill file cannot be read back.
    method Materialize() returns (r: Result<seq<bytes>, string>)
      modifies disk
      ensures r.Ok? <==> spill == null || !disk.plan.fails(old(disk.ops))
      ensures r.Ok? ==> Flatten(r.value) == old(State().Contents())
      ensures r.Err? ==> r.error == "fallback replay failed"
      ensures disk.ops == if spill == null then old(disk.ops) else old(disk.ops) + 1
    {
      if spill != null {
        var ok := disk.Try();
        if !ok {
          return Err("fallback replay failed");
        }
        assert [spill.content][..0] == [];
        return Ok([spill.content]);
      }
      r := Ok(ram);
    }
  }

  // One more chunk is moved, or the move ends there.
  lemma MoveNext(plan: Plan, all: seq<bytes>, i: nat, n: nat)
    requires i < |all| && Move(plan, all[..i], n).count == i
    ensures Flatten(all[..i + 1]) == Flatten(all[..i]) + all[i]
    ensures var ops := Move(plan, all[..i], n).ops;
            if all[i] == [] then Move(plan, all[..i + 1], n) == Moved(i + 1, ops)
            else if !plan.fails(ops) then Move(plan, all[..i + 1], n) == Moved(i + 1, ops + 1)
            else Move(plan, all, n) == Moved(i, ops + 1)
  {
    assert all[..i + 1] == all[..i] + [all[i]];
    FlattenPush(all[..i], all[i]);
    assert all[..i + 1][..i] == all[..i];
    if all[i] != [] && plan.fails(Move(plan, all[..i], n).ops) {
      MoveStops(plan, all, i + 1, n);
    }
  }

  // The move of what is in memory, and then of the chunk pushed.
  lemma MoveLast(plan: Plan, ram: seq<bytes>, chunk: bytes, n: nat)
    ensures Flatten(ram[..|ram|]) == Flatten(ram)
    ensures var all := ram + [chunk];
            var before, m := Move(plan, ram, n), Move(plan, all, n);
            if before.count < |ram| then m == before && Flatten(all[..m.count]) == Flatten(ram[..m.count])
            else if chunk != [] && plan.fails(before.ops) then
              m == Moved(|ram|, before.ops + 1) && Flatten(all[..m.count]) == Flatten(ram)
            else
              m == Moved(|all|, if chunk == [] then before.ops else before.ops + 1)
              && Flatten(all[..m.count]) == Flatten(all) == Flatten(ram) + chunk
  {
    var all := ram + [chunk];
    var before := Move(plan, ram, n);
    assert all[..|ram|] == ram && all[..|all|] == all && ram[..|ram|] == ram;
    if before.count < |ram| {
      assert all[..before.count] == ram[..before.count];
    }
    FlattenPush(ram, chunk);
  }

  // A move that fails in its first chunks fails there.
  lemma {:induction false} MoveStops(plan: Plan, all: seq<bytes>, k: nat, n: nat)
    requires k <= |all| && Move(plan, all[..k], n).count < k
    ensures Move(plan, all, n) == Move(plan, all[..k], n)
    decreases |all|
  {
    if k == |all| {
      assert all[..k] == all;
    } else {
      assert all[..|all| - 1][..k] == all[..k];
      MoveStops(plan, all[..|all| - 1], k, n);
    }
  }

  // ---------- The channel ----------

  type Item = Result<bytes, string>

  // The upload's chunks, each good or an error.
  class Receiver {
    var queue: seq<Item>

    constructor (items: seq<Item>)
      ensures queue == items
    {
      queue := items;
    }

    method Recv() returns (r: Option<Item>)
      modifies this
      ensures old(queue) == [] ==> r == None && queue == []
      ensures old(queue) != [] ==> r == Some(old(queue)[0]) && queue == old(queue)[1..]
    {
      if queue == [] {
        return None;
      }
      r := Some(queue[0]);
      queue := queue[1..];
    }
  }

  // The good chunks of a channel, in order.
  function OkBytes(queue: seq<Item>): bytes {
    if queue == [] then [] else (if queue[0].Ok? then queue[0].value else []) + OkBytes(queue[1..])
  }

  // How many good chunks stand in front of the first error.
  function GoodFront(queue: seq<Item>): (k: nat)
    ensures k <= |queue| && (k < |queue| ==> queue[k].Err?)
    ensures forall i :: 0 <= i < k ==> queue[i].Ok?
  {
    if queue != [] && queue[0].Ok? then 1 + GoodFront(queue[1..]) else 0
  }

  predicate AnyOk(queue: seq<Item>) {
    exists i :: 0 <= i < |queue| && queue[i].Ok?
  }

  predicate AllOk(queue: seq<Item>) {
    forall i :: 0 <= i < |queue| ==> queue[i].Ok?
  }

  lemma NextItem(queue: seq<Item>)
    requires queue != []
    ensures queue[0].Ok? ==> OkBytes(queue) == queue[0].value + OkBytes(queue[1..]) && AnyOk(queue)
    ensures queue[0].Err? ==> OkBytes(queue) == OkBytes(queue[1..]) && (AnyOk(queue) <==> AnyOk(queue[1..]))
    ensures AllOk(queue) <==> queue[0].Ok? && AllOk(queue[1..])
  {
    if queue[0].Err? && AnyOk(queue) {
      var i :| 0 <= i < |queue| && queue[i].Ok?;
      assert queue[1..][i - 1].Ok?;
    }
    if queue[0].Ok? && AllOk(queue[1..]) {
      forall i | 0 <= i < |queue| ensures queue[i].Ok? {
        assert i > 0 ==> queue[1..][i - 1].Ok?;
      }
    }
  }

  // ---------- Error texts ----------

  const STATUS_MARKER := "(status="

  predicate OccursAt(text: string, i: nat, part: string) {
    i <= |text| && part <= text[i..]
  }

  predicate Contains(text: string, part: string) {
    exists i: nat :: i <= |text| && OccursAt(text, i, part)
  }

  lemma ContainsAppend(before: string, text: string, after: string)
    requires Contains(text, STATUS_MARKER)
    ensures Contains(before + text + after, STATUS_MARKER)
  {
    var i: nat :| i <= |text| && OccursAt(text, i, STATUS_MARKER);
    assert (before + text + after)[i + |before|..] == text[i..] + after;
    assert OccursAt(before + text + after, i + |before|, STATUS_MARKER);
  }

  // A prefix without a parenthesis neither makes nor hides a marker.
  lemma PlainPrefix(prefix: string, text: string)
    requires '(' !in prefix
    ensures Contains(prefix + text, STATUS_MARKER) <==> Contains(text, STATUS_MARKER)
  {
    var all := prefix + text;
    assert forall k :: 0 <= k < |prefix| ==> all[k] == prefix[k] != '(';
    if Contains(all, STATUS_MARKER) {
      var i: nat :| i <= |all| && OccursAt(all, i, STATUS_MARKER);
      assert STATUS_MARKER[0] == all[i..][0] == all[i];
      assert all[i..] == text[i - |prefix|..];
      assert OccursAt(text, i - |prefix|, STATUS_MARKER);
    }
    if Contains(text, STATUS_MARKER) {
      ContainsAppend(prefix, text, "");
      assert prefix + text + "" == all;
    }
  }

  lemma PlainText(text: string)
    requires '(' !in text
    ensures !Contains(text, STATUS_MARKER)
  {
    PlainPrefix(text, "");
    assert text + "" == text;
  }

  lemma ChunkErrorText(e: string)
    ensures Contains("chunk error: " + e, STATUS_MARKER) <==> Contains(e, STATUS_MARKER)
  {
    PlainPrefix("chunk error: ", e);
  }

  lemma SendErrorText(e: string)
    ensures Contains("send_data failed: " + e, STATUS_MARKER) <==> Contains(e, STATUS_MARKER)
  {
    PlainPrefix("send_data failed: ", e);
  }

  lemma LocalErrorTexts()
    ensures !Contains("fallback spill failed", STATUS_MARKER)
    ensures !Contains("no data received for QUIC push", STATUS_MARKER)
  {
    PlainText("fallback spill failed");
    PlainText("no data received for QUIC push");
  }

  function Decimal(n: nat): string {
    if n < 10 then [DIGITS[n]] else Decimal(n / 10) + [DIGITS[n % 10]]
  }

  const DIGITS := "0123456789"

  // What the error body says: a message, some other text, or nothing.
  datatype ErrorBody = Message(code: string, text: string) | Raw(code: string, text: string) | Empty(code: string)

  // The text before and after the status.
  function Lead(body: ErrorBody): string {
    match body
    case Message(code, text) => "[" + code + "] " + text + " "
    case Raw(code, text) => "[" + code + "] " + text + " "
    case Empty(code) => code + " "
  }

  function Tail(status: nat, body: ErrorBody): string {
    Decimal(status) + if body.Empty? then ", body=<empty>)" else ")"
  }

  function FormatErrorResponse(status: nat, body: ErrorBody): string {
    Lead(body) + STATUS_MARKER + Tail(status, body)
  }

  function QuicDetail(url: string, status: nat, bodyLen: nat): string {
    " (url=" + url + ", status=" + Decimal(status) + ", body_len=" + Decimal(bodyLen) + ")"
  }

  function RejectionText(url: string, status: nat, body: ErrorBody, bodyLen: nat): string {
    FormatErrorResponse(status, body) + QuicDetail(url, status, bodyLen)
  }

  function QuicResult(url: string, status: nat, body: ErrorBody, bodyLen: nat): Result<(), string> {
    if 200 <= status < 300 then Ok(()) else Err(RejectionText(url, status, body, bodyLen))
  }

  // Every rejection carries the marker, with the status behind it.
  lemma RejectionHasMarker(url: string, status: nat, body: ErrorBody, bodyLen: nat) returns (i: nat)
    ensures var text := RejectionText(url, status, body, bodyLen);
            Contains(text, STATUS_MARKER) && i + |STATUS_MARKER| <= |text| && OccursAt(text, i, STATUS_MARKER)
            && Decimal(status) <= text[i + |STATUS_MARKER|..]
  {
    var lead, tail, more := Lead(body), Tail(status, body), QuicDetail(url, status, bodyLen);
    i := |lead|;
    var text := RejectionText(url, status, body, bodyLen);
    assert text[i..] == STATUS_MARKER + (tail + more);
    assert text[i + |STATUS_MARKER|..] == tail + more;
    assert OccursAt(text, i, STATUS_MARKER);
  }

  // The digits of a number have its value.
  lemma {:induction false} DecimalExactly(n: nat)
    ensures RangeHeader.AllDigits(Decimal(n)) && Decimal(n) != "" && RangeHeader.DecimalValue(Decimal(n)) == n
    decreases n
  {
    DigitExactly(n % 10);
    if n < 10 {
      RangeHeader.OneMoreDigit("", DIGITS[n]);
      assert "" + [DIGITS[n]] == [DIGITS[n]];
    } else {
      DecimalExactly(n / 10);
      RangeHeader.OneMoreDigit(Decimal(n / 10), DIGITS[n % 10]);
    }
  }

  lemma DigitExactly(d: nat)
    requires d < 10
    ensures RangeHeader.IsDigit(DIGITS[d]) && RangeHeader.Digit(DIGITS[d]) == d
  {
  }

  // ---------- The QUIC attempt ----------

  datatype Reply = Lost(error: string) | Status(status: nat, body: ErrorBody, bodyLen: nat)

  // What the network does: fail before the first chunk, fail to send after some
  // chunks, and how it replies. The texts are the errors reported.
  datatype Network = Network(setup: Option<string>, sendsBeforeError: nat, sendError: Option<string>, reply: Reply) {
    predicate SendFails(n: nat) {
      sendError.Some? && n == sendsBeforeError
    }

    // No error text but a status reply's contains the marker.
    predicate MarkerFree(items: seq<Item>) {
      (setup.Some? ==> !Contains(setup.value, STATUS_MARKER))
      && (reply.Lost? ==> !Contains(reply.error, STATUS_MARKER))
      && (sendError.Some? ==> !Contains(sendError.value, STATUS_MARKER))
      && (forall i :: 0 <= i < |items| && items[i].Err? ==> !Contains(items[i].error, STATUS_MARKER))
    }

    // The storage host gets every chunk and answers with a status.
    predicate Replies(items: seq<Item>) {
      setup.None? && items != [] && AllOk(items)
      && !(sendError.Some? && sendsBeforeError < |items|) && reply.Status?
    }

    // The error of an attempt that gets no reply, if the disk does not fail: that
    // of whichever comes first.
    function FirstError(items: seq<Item>): string {
      var k := GoodFront(items);
      if setup.Some? then setup.value
      else if sendError.Some? && sendsBeforeError < k then "send_data failed: " + sendError.value
      else if k < |items| then "chunk error: " + items[k].error
      else if items == [] || reply.Status? then "no data received for QUIC push"
      else reply.error
    }
  }

  // The end of an attempt: the buffer, what the host received, what is left in
  // the channel, the error if any, and whether a push to the buffer failed.
  datatype Attempt = Attempt(
    buffer: Buffer, sends: nat, received: bytes, rest: seq<Item>, error: Option<string>, lost: bool)

  // The attempt from the point where `queue` is still in the channel.
  function SendAll(
      net: Network, plan: Plan, b: Buffer, sends: nat, received: bytes, queue: seq<Item>): Attempt
    decreases |queue|
  {
    if queue == [] then Attempt(b, sends, received, [], None, false)
    else if queue[0].Err? then
      Attempt(b, sends, received, queue[1..], Some("chunk error: " + queue[0].error), false)
    else
      var (b', ok) := PushOn(plan, b, queue[0].value);
      if !ok then Attempt(b', sends, received, queue[1..], Some("fallback spill failed"), true)
      else if net.SendFails(sends) then
        Attempt(b', sends, received, queue[1..], Some("send_data failed: " + net.sendError.value), false)
      else SendAll(net, plan, b', sends + 1, received + queue[0].value, queue[1..])
  }

  // The attempt once the loop is over.
  function Conclude(url: string, net: Network, items: seq<Item>, a: Attempt): (r: Attempt)
    ensures r.buffer == a.buffer && r.received == a.received && r.rest == a.rest && r.lost == a.lost
  {
    if a.error.Some? then a
    else if items == [] then a.(error := Some("no data received for QUIC push"))
    else if net.reply.Lost? then a.(error := Some(net.reply.error))
    else
      var r := QuicResult(url, net.reply.status, net.reply.body, net.reply.bodyLen);
      a.(error := if r.Ok? then None else Some(r.error))
  }

  // The whole attempt.
  function Quic(url: string, net: Network, plan: Plan, items: seq<Item>): Attempt {
    if net.setup.Some? then Attempt(EMPTY_BUFFER, 0, [], items, net.setup, false)
    else Conclude(url, net, items, SendAll(net, plan, EMPTY_BUFFER, 0, [], items))
  }

  // ---------- What an attempt keeps ----------

  // Unless a push fails, what is kept and what is still queued make up the good
  // chunks; if one fails, something is missing for good.
  lemma {:induction false} SendAllConserves(
      net: Network, plan: Plan, b: Buffer, sends: nat, received: bytes, queue: seq<Item>)
    requires b.Valid()
    ensures var a := SendAll(net, plan, b, sends, received, queue);
            a.buffer.Valid()
            && (!a.lost ==>
                  a.buffer.Contents() + OkBytes(a.rest) == b.Contents() + OkBytes(queue))
            && (a.lost ==> |a.buffer.Contents()| + |OkBytes(a.rest)| < |b.Contents()| + |OkBytes(queue)|)
    decreases |queue|
  {
    if queue != [] {
      NextItem(queue);
      if queue[0].Ok? {
        var (b', ok) := PushOn(plan, b, queue[0].value);
        PushKeeps(plan, b, queue[0].value);
        Regroup(b.Contents(), queue[0].value, OkBytes(queue[1..]));
        if ok && !net.SendFails(sends) {
          SendAllConserves(net, plan, b', sends + 1, received + queue[0].value, queue[1..]);
        }
      }
    }
  }

  // The buffer stays intact, and it and the queue hold a good chunk exactly if
  // they did before.
  lemma {:induction false} SendAllIntact(
      net: Network, plan: Plan, b: Buffer, sends: nat, received: bytes, queue: seq<Item>)
    requires b.Intact()
    ensures var a := SendAll(net, plan, b, sends, received, queue);
            !a.lost ==> a.buffer.Intact() && (!a.buffer.IsEmpty() || AnyOk(a.rest) <==> !b.IsEmpty() || AnyOk(queue))
    decreases |queue|
  {
    if queue != [] {
      NextItem(queue);
      if queue[0].Ok? {
        var (b', ok) := PushOn(plan, b, queue[0].value);
        PushKeeps(plan, b, queue[0].value);
        if ok && !net.SendFails(sends) {
          SendAllIntact(net, plan, b', sends + 1, received + queue[0].value, queue[1..]);
        }
      }
    }
  }

  // Unless a push fails, the loop ends without an error exactly if all items are
  // good and no send fails; then the host has received them all.
  lemma {:induction false} SendAllSucceeds(
      net: Network, plan: Plan, b: Buffer, sends: nat, received: bytes, queue: seq<Item>)
    ensures var a := SendAll(net, plan, b, sends, received, queue);
            (a.lost ==> a.error == Some("fallback spill failed"))
            && (a.error.None? ==> a.received == received + OkBytes(queue))
            && (!a.lost ==>
                  (a.error.None? <==>
                   AllOk(queue) && !(net.sendError.Some? && sends <= net.sendsBeforeError < sends + |queue|)))
    decreases |queue|
  {
    if queue == [] {
      assert received + [] == received;
    } else {
      NextItem(queue);
      if queue[0].Ok? {
        var (b', ok) := PushOn(plan, b, queue[0].value);
        Regroup(received, queue[0].value, OkBytes(queue[1..]));
        if ok && !net.SendFails(sends) {
          SendAllSucceeds(net, plan, b', sends + 1, received + queue[0].value, queue[1..]);
        }
      }
    }
  }

  // Unless a push fails, the error is that of the first send or item to fail.
  lemma {:induction false} SendAllStops(
      net: Network, plan: Plan, b: Buffer, sends: nat, received: bytes, queue: seq<Item>)
    ensures var a, k := SendAll(net, plan, b, sends, received, queue), GoodFront(queue);
            a.error.Some? && !a.lost ==>
              if net.sendError.Some? && sends <= net.sendsBeforeError < sends + k then
                a.error.value == "send_data failed: " + net.sendError.value
              else k < |queue| && a.error.value == "chunk error: " + queue[k].error
    decreases |queue|
  {
    if queue != [] && queue[0].Ok? {
      var (b', ok) := PushOn(plan, b, queue[0].value);
      if ok && !net.SendFails(sends) {
        SendAllStops(net, plan, b', sends + 1, received + queue[0].value, queue[1..]);
      }
    }
  }

  // A push that fails loses chunks up to its own, from some byte on; all later
  // ones are still in the channel.
  lemma {:induction false} SendAllLoses(
      net: Network, plan: Plan, b: Buffer, sends: nat, received: bytes, queue: seq<Item>)
    returns (k: nat)
    requires b.Valid() && SendAll(net, plan, b, sends, received, queue).lost
    ensures var a := SendAll(net, plan, b, sends, received, queue);
            k < |queue| && a.rest == queue[k + 1..]
            && a.buffer.Contents() < b.Contents() + OkBytes(queue[..k + 1])
    decreases |queue|
  {
    var (b', ok) := PushOn(plan, b, queue[0].value);
    PushKeeps(plan, b, queue[0].value);
    if ok {
      var more := SendAllLoses(net, plan, b', sends + 1, received + queue[0].value, queue[1..]);
      k := more + 1;
      assert queue[..k + 1][1..] == queue[1..][..more + 1] && queue[1..][more + 1..] == queue[k + 1..];
      NextItem(queue[..k + 1]);
      Regroup(b.Contents(), queue[0].value, OkBytes(queue[1..][..more + 1]));
    } else {
      k := 0;
      assert queue[..1][1..] == [];
      NextItem(queue[..1]);
      assert queue[0].value + [] == queue[0].value;
    }
  }

  // A push fails during the loop exactly if one of the disk operations fails that
  // the loop needs on a disk without faults; otherwise it goes as on such a disk.
  lemma {:induction false} SendAllFailsExactly(
      net: Network, plan: Plan, b: Buffer, sends: nat, received: bytes, queue: seq<Item>)
    ensures var good := SendAll(net, NO_FAULTS, b, sends, received, queue);
            !good.lost && b.ops <= good.buffer.ops
            && if Clean(plan, b.ops, good.buffer.ops) then SendAll(net, plan, b, sends, received, queue) == good
               else SendAll(net, plan, b, sends, received, queue).lost
    decreases |queue|
  {
    if queue != [] && queue[0].Ok? {
      PushFailsExactly(plan, b, queue[0].value);
      var b' := PushOn(NO_FAULTS, b, queue[0].value).0;
      if !net.SendFails(sends) {
        SendAllFailsExactly(net, plan, b', sends + 1, received + queue[0].value, queue[1..]);
      }
    }
  }

  // Disk operations the attempt needs on a disk without faults.
  function AttemptOps(url: string, net: Network, items: seq<Item>): nat {
    Quic(url, net, NO_FAULTS, items).buffer.ops
  }

  lemma EmptyBuffer()
    ensures EMPTY_BUFFER.Intact() && EMPTY_BUFFER.IsEmpty() && EMPTY_BUFFER.Contents() == []
  {
  }

  lemma QuicFailsExactly(url: string, net: Network, plan: Plan, items: seq<Item>)
    ensures var good := Quic(url, net, NO_FAULTS, items);
            !good.lost
            && if Clean(plan, 0, AttemptOps(url, net, items)) then Quic(url, net, plan, items) == good
               else Quic(url, net, plan, items).lost
  {
    if net.setup.None? {
      SendAllFailsExactly(net, plan, EMPTY_BUFFER, 0, [], items);
    }
  }

  // What an attempt leaves behind: all good chunks, unless a push failed.
  lemma QuicConserves(url: string, net: Network, plan: Plan, items: seq<Item>)
    ensures var a := Quic(url, net, plan, items);
            a.buffer.Valid()
            && (!a.lost ==>
                  a.buffer.Intact() && a.buffer.Contents() + OkBytes(a.rest) == OkBytes(items)
                  && (!a.buffer.IsEmpty() || AnyOk(a.rest) <==> AnyOk(items)))
            && (a.lost ==> |a.buffer.Contents()| + |OkBytes(a.rest)| < |OkBytes(items)|)
  {
    EmptyBuffer();
    assert [] + OkBytes(items) == OkBytes(items);
    if net.setup.None? {
      SendAllConserves(net, plan, EMPTY_BUFFER, 0, [], items);
      SendAllIntact(net, plan, EMPTY_BUFFER, 0, [], items);
    }
  }

  // Unless a push fails, the attempt succeeds exactly if the host replies with a
  // success status; any other reply is a rejection, and without a reply the error
  // is the first there was.
  lemma QuicReplies(url: string, net: Network, plan: Plan, items: seq<Item>)
    ensures var a := Quic(url, net, plan, items);
            (a.error.None? ==> a.received == OkBytes(items) && net.Replies(items) && 200 <= net.reply.status < 300)
            && (a.lost ==> a.error == Some("fallback spill failed") && !Contains(a.error.value, STATUS_MARKER))
            && (!a.lost && net.Replies(items) ==>
                  a.error == if 200 <= net.reply.status < 300 then None
                             else Some(RejectionText(url, net.reply.status, net.reply.body, net.reply.bodyLen)))
            && (!a.lost && !net.Replies(items) ==> a.error == Some(net.FirstError(items)))
  {
    LocalErrorTexts();
    assert [] + OkBytes(items) == OkBytes(items);
    SendAllSucceeds(net, plan, EMPTY_BUFFER, 0, [], items);
    SendAllStops(net, plan, EMPTY_BUFFER, 0, [], items);
  }

  // The error of an attempt without a reply holds the marker only if a text from
  // outside does.
  lemma FirstErrorUnmarked(net: Network, items: seq<Item>)
    requires net.MarkerFree(items)
    ensures !net.Replies(items) ==> !Contains(net.FirstError(items), STATUS_MARKER)
  {
    LocalErrorTexts();
    var k := GoodFront(items);
    if k < |items| {
      ChunkErrorText(items[k].error);
    }
    if net.sendError.Some? {
      SendErrorText(net.sendError.value);
    }
  }

  // ---------- The replay ----------

  datatype Outcome =
    | Sent
    | Rejected(error: string)
    | HttpBody(body: bytes)
    | NoData
    | Failed(error: string)

  // The buffer once the rest of the channel is kept, too; error items are skipped.
  function Replay(plan: Plan, b: Buffer, queue: seq<Item>): Option<Buffer>
    decreases |queue|
  {
    if queue == [] then Some(b)
    else if queue[0].Err? then Replay(plan, b, queue[1..])
    else
      var (b', ok) := PushOn(plan, b, queue[0].value);
      if ok then Replay(plan, b', queue[1..]) else None
  }

  function Finish(plan: Plan, b: Buffer): Outcome {
    if b.IsEmpty() then NoData
    else if b.spill.Some? && plan.fails(b.ops) then Failed("fallback replay failed")
    else HttpBody(b.Contents())
  }

  function Replayed(plan: Plan, b: Buffer, queue: seq<Item>): Outcome {
    match Replay(plan, b, queue)
    case None => Failed("fallback spill failed")
    case Some(b') => Finish(plan, b')
  }

  lemma {:induction false} ReplayKeeps(plan: Plan, b: Buffer, queue: seq<Item>)
    requires b.Valid()
    ensures var r := Replay(plan, b, queue);
            r.Some? ==>
              r.value.Valid() && r.value.Contents() == b.Contents() + OkBytes(queue)
              && (b.Intact() ==> r.value.Intact() && (r.value.IsEmpty() <==> b.IsEmpty() && !AnyOk(queue)))
    decreases |queue|
  {
    if queue == [] {
      assert b.Contents() + [] == b.Contents();
    } else {
      NextItem(queue);
      if queue[0].Ok? {
        PushKeeps(plan, b, queue[0].value);
        Regroup(b.Contents(), queue[0].value, OkBytes(queue[1..]));
        var (b', ok) := PushOn(plan, b, queue[0].value);
        if ok {
          ReplayKeeps(plan, b', queue[1..]);
        }
      } else {
        ReplayKeeps(plan, b, queue[1..]);
      }
    }
  }

  lemma {:induction false} ReplayFailsExactly(plan: Plan, b: Buffer, queue: seq<Item>)
    ensures var good := Replay(NO_FAULTS, b, queue);
            good.Some? && b.ops <= good.value.ops
            && Replay(plan, b, queue) == if Clean(plan, b.ops, good.value.ops) then good else None
    decreases |queue|
  {
    if queue != [] {
      if queue[0].Ok? {
        PushFailsExactly(plan, b, queue[0].value);
        ReplayFailsExactly(plan, PushOn(NO_FAULTS, b, queue[0].value).0, queue[1..]);
      } else {
        ReplayFailsExactly(plan, b, queue[1..]);
      }
    }
  }

  // Disk operations so far when a replay without faults is over.
  function ReplayOps(b: Buffer, queue: seq<Item>): nat {
    ReplayFailsExactly(NO_FAULTS, b, queue);
    var b' := Replay(NO_FAULTS, b, queue).value;
    if !b'.IsEmpty() && b'.spill.Some? then b'.ops + 1 else b'.ops
  }

  lemma ReplayedExactly(plan: Plan, b: Buffer, queue: seq<Item>)
    ensures b.ops <= ReplayOps(b, queue)
    ensures if Clean(plan, b.ops, ReplayOps(b, queue)) then Replayed(plan, b, queue) == Replayed(NO_FAULTS, b, queue)
            else Replayed(plan, b, queue).Failed?
  {
    ReplayFailsExactly(plan, b, queue);
  }

  // ---------- The upload ----------

  function Upload(url: string, net: Network, plan: Plan, items: seq<Item>): Outcome {
    var a := Quic(url, net, plan, items);
    if a.error.None? then Sent
    else if Contains(a.error.value, STATUS_MARKER) then Rejected(a.error.value)
    else Replayed(plan, a.buffer, a.rest)
  }

  // Disk operations the upload needs on a disk without faults.
  function UploadOps(url: string, net: Network, items: seq<Item>): nat {
    var a := Quic(url, net, NO_FAULTS, items);
    if a.error.None? || Contains(a.error.value, STATUS_MARKER) then a.buffer.ops else ReplayOps(a.buffer, a.rest)
  }

  // What the upload promises, in the terms of its inputs.
  function Promised(url: string, net: Network, items: seq<Item>): Outcome {
    if net.Replies(items) then
      if 200 <= net.reply.status < 300 then Sent
      else Rejected(RejectionText(url, net.reply.status, net.reply.body, net.reply.bodyLen))
    else if Contains(net.FirstError(items), STATUS_MARKER) then Rejected(net.FirstError(items))
    else if AnyOk(items) then HttpBody(OkBytes(items))
    else NoData
  }

  // On a disk without faults the promise is kept.
  lemma UploadWithoutFaults(url: string, net: Network, items: seq<Item>)
    ensures Upload(url, net, NO_FAULTS, items) == Promised(url, net, items)
    ensures net.Replies(items) ==> UploadOps(url, net, items) == AttemptOps(url, net, items)
  {
    QuicReplies(url, net, NO_FAULTS, items);
    QuicConserves(url, net, NO_FAULTS, items);
    QuicFailsExactly(url, net, NO_FAULTS, items);
    var a := Quic(url, net, NO_FAULTS, items);
    if net.Replies(items) {
      var i := RejectionHasMarker(url, net.reply.status, net.reply.body, net.reply.bodyLen);
    }
    ReplayFailsExactly(NO_FAULTS, a.buffer, a.rest);
    ReplayKeeps(NO_FAULTS, a.buffer, a.rest);
  }

  /** The upload, whatever the disk does. If no operation it needs fails, it does
      what it promises. If the first one to fail comes after the QUIC attempt, the
      upload fails. If one fails during the attempt, the upload may still succeed
      over HTTP, but never with all good chunks. */
  lemma UploadExactly(url: string, net: Network, plan: Plan, items: seq<Item>)
    ensures AttemptOps(url, net, items) <= UploadOps(url, net, items)
    ensures net.Replies(items) ==> AttemptOps(url, net, items) == UploadOps(url, net, items)
    ensures var outcome := Upload(url, net, plan, items);
            if Clean(plan, 0, UploadOps(url, net, items)) then outcome == Promised(url, net, items)
            else if Clean(plan, 0, AttemptOps(url, net, items)) then outcome.Failed?
            else !outcome.Sent? && !outcome.Rejected?
                 && (outcome.HttpBody? ==> |outcome.body| < |OkBytes(items)|)
  {
    UploadWithoutFaults(url, net, items);
    QuicFailsExactly(url, net, plan, items);
    QuicReplies(url, net, plan, items);
    QuicConserves(url, net, plan, items);
    var a, good := Quic(url, net, plan, items), Quic(url, net, NO_FAULTS, items);
    ReplayedExactly(plan, good.buffer, good.rest);
    ReplayKeeps(plan, a.buffer, a.rest);
  }

  // If a disk operation fails during the attempt, what is sent over HTTP is some
  // part of the chunks up to that push, from the start on, and then all later ones.
  lemma LossyBody(url: string, net: Network, plan: Plan, items: seq<Item>) returns (k: nat, kept: bytes)
    requires Upload(url, net, plan, items).HttpBody? && Quic(url, net, plan, items).lost
    ensures k < |items| && kept < OkBytes(items[..k + 1])
    ensures Upload(url, net, plan, items).body == kept + OkBytes(items[k + 1..])
  {
    EmptyBuffer();
    var a := Quic(url, net, plan, items);
    kept := a.buffer.Contents();
    k := SendAllLoses(net, plan, EMPTY_BUFFER, 0, [], items);
    assert [] + OkBytes(items[..k + 1]) == OkBytes(items[..k + 1]);
    QuicConserves(url, net, plan, items);
    ReplayKeeps(plan, a.buffer, a.rest);
  }

  // Whatever is sent over HTTP is all good chunks in order, exactly if no disk
  // operation fails that the QUIC attempt needs.
  lemma {:induction false} BodyIsComplete(url: string, net: Network, plan: Plan, items: seq<Item>)
    requires Upload(url, net, plan, items).HttpBody?
    ensures Upload(url, net, plan, items).body == OkBytes(items) <==> Clean(plan, 0, AttemptOps(url, net, items))
  {
    UploadExactly(url, net, plan, items);
  }

  // ---------- Small uploads, lost uploads, uploads with error items ----------

  lemma {:induction false} SendAllInMemory(net: Network, b: Buffer, sends: nat, received: bytes, queue: seq<Item>)
    requires b.spill.None? && b.ramBytes + |OkBytes(queue)| <= QUIC_SPILL_THRESHOLD_BYTES
    ensures var a := SendAll(net, NO_FAULTS, b, sends, received, queue);
            a.buffer.spill.None? && a.buffer.ops == b.ops
            && a.buffer.ramBytes + |OkBytes(a.rest)| <= QUIC_SPILL_THRESHOLD_BYTES
    decreases |queue|
  {
    if queue != [] {
      NextItem(queue);
      if queue[0].Ok? && !net.SendFails(sends) {
        var b' := PushOn(NO_FAULTS, b, queue[0].value).0;
        SendAllInMemory(net, b', sends + 1, received + queue[0].value, queue[1..]);
      }
    }
  }

  lemma {:induction false} ReplayInMemory(b: Buffer, queue: seq<Item>)
    requires b.spill.None? && b.ramBytes + |OkBytes(queue)| <= QUIC_SPILL_THRESHOLD_BYTES
    ensures ReplayOps(b, queue) == b.ops
    ensures Replay(NO_FAULTS, b, queue).Some? && Replay(NO_FAULTS, b, queue).value.spill.None?
    decreases |queue|
  {
    if queue != [] {
      NextItem(queue);
      ReplayInMemory(if queue[0].Ok? then PushOn(NO_FAULTS, b, queue[0].value).0 else b, queue[1..]);
    }
  }

  // An upload whose good chunks fit in memory needs no disk at all, so that it
  // keeps its promise whatever the disk does.
  lemma SmallUploadsNeedNoDisk(url: string, net: Network, plan: Plan, items: seq<Item>)
    requires |OkBytes(items)| <= QUIC_SPILL_THRESHOLD_BYTES
    ensures UploadOps(url, net, items) == 0
    ensures Upload(url, net, plan, items) == Promised(url, net, items)
  {
    SendAllInMemory(net, EMPTY_BUFFER, 0, [], items);
    var a := Quic(url, net, NO_FAULTS, items);
    ReplayInMemory(a.buffer, a.rest);
    UploadExactly(url, net, plan, items);
  }

  // A full memory buffer, a chunk whose move to disk fails in its first write,
  // and a later chunk: the upload sends the later chunk alone.
  lemma LossyUpload(url: string, full: bytes, chunk: bytes, later: bytes)
    requires |full| == QUIC_SPILL_THRESHOLD_BYTES && chunk != [] && later != []
    ensures var net := Network(None, 0, None, Lost("connection lost"));
            var plan := Plan(n => n == 1, n => 0);
            Upload(url, net, plan, [Ok(full), Ok(chunk), Ok(later)]) == HttpBody(later)
  {
    var net := Network(None, 0, None, Lost("connection lost"));
    var plan := Plan(n => n == 1, n => 0);
    var items: seq<Item> := [Ok(full), Ok(chunk), Ok(later)];
    assert items[1..] == [Ok(chunk), Ok(later)] && items[1..][1..] == [Ok(later)];
    LossyPush(plan, full, chunk);
    LocalErrorTexts();
    var lost := Buffer([], |full|, 0, None, 2);
    FullPush(plan, full);
    var a := SendAll(net, plan, EMPTY_BUFFER, 0, [], items);
    assert a == SendAll(net, plan, Buffer([full], |full|, 0, None, 0), 1, [] + full, items[1..]);
    assert a == Attempt(lost, 1, [] + full, [Ok(later)], Some("fallback spill failed"), true);
    LaterPush(plan, lost, later);
    var last: seq<Item> := [Ok(later)];
    assert last[1..] == [];
    assert Replay(plan, lost, [Ok(later)]) == Some(Buffer([], |full|, |later|, Some(later), 4));
  }

  lemma FullPush(plan: Plan, full: bytes)
    requires |full| == QUIC_SPILL_THRESHOLD_BYTES
    ensures PushOn(plan, EMPTY_BUFFER, full) == (Buffer([full], |full|, 0, None, 0), true)
  {
    assert EMPTY_BUFFER.ram + [full] == [full];
  }

  lemma LossyPush(plan: Plan, full: bytes, chunk: bytes)
    requires |full| == QUIC_SPILL_THRESHOLD_BYTES && chunk != [] && !plan.fails(0) && plan.fails(1)
    ensures PushOn(plan, Buffer([full], |full|, 0, None, 0), chunk) == (Buffer([], |full|, 0, None, 2), false)
  {
    var all := [full] + [chunk];
    assert all[..1] == [full] && [full][..0] == [] && all[..0] == [];
    assert Move(plan, [full], 1) == Moved(0, 2);
  }

  lemma LaterPush(plan: Plan, b: Buffer, later: bytes)
    requires b == Buffer([], QUIC_SPILL_THRESHOLD_BYTES, 0, None, 2) && later != []
    requires !plan.fails(2) && !plan.fails(3)
    ensures PushOn(plan, b, later) == (Buffer([], b.ramBytes, |later|, Some(later), 4), true)
  {
    var all := [] + [later];
    assert all == [later] && all[..0] == [] && all[..1] == all;
    assert Move(plan, [], 3) == Moved(0, 3);
    assert Flatten(all) == [] + later == later;
  }

  // An upload whose channel holds an error item never succeeds over QUIC, but it
  // does over HTTP, without that item, as soon as there is one good chunk.
  lemma ErrorItemsAreSkipped(url: string, net: Network, plan: Plan, items: seq<Item>)
    requires !AllOk(items) && net.MarkerFree(items) && Clean(plan, 0, UploadOps(url, net, items))
    ensures Upload(url, net, plan, items) == if AnyOk(items) then HttpBody(OkBytes(items)) else NoData
  {
    UploadExactly(url, net, plan, items);
    FirstErrorUnmarked(net, items);
  }

  // ---------- The code ----------

  // The storage host: what it has received.
  class Host {
    const net: Network
    var sends: nat
    var received: bytes

    constructor (net: Network)
      ensures this.net == net && sends == 0 && received == []
    {
      this.net, sends, received := net, 0, [];
    }

    method Send(chunk: bytes) returns (r: Result<(), string>)
      modifies this
      ensures r.Err? <==> net.SendFails(old(sends))
      ensures r.Err? ==> r.error == net.sendError.value && sends == old(sends) && received == old(received)
      ensures r.Ok? ==> sends == old(sends) + 1 && received == old(received) + chunk
    {
      if net.SendFails(sends) {
        return Err(net.sendError.value);
      }
      sends, received := sends + 1, received + chunk;
      r := Ok(());
    }
  }

  // The objects are as the attempt says.
  ghost predicate Ended(a: Attempt, rx: Receiver, fallback: QuicFallbackBuffer, host: Host)
    reads rx, fallback, fallback.spill, fallback.disk, host
  {
    a.buffer == fallback.State() && a.sends == host.sends && a.received == host.received && a.rest == rx.queue
  }

  // What the loop will come to from here.
  function ToCome(rx: Receiver, fallback: QuicFallbackBuffer, host: Host): Attempt
    reads rx, fallback, fallback.spill, fallback.disk, host
  {
    SendAll(host.net, fallback.disk.plan, fallback.State(), host.sends, host.received, rx.queue)
  }

  /** The receive, keep and send loop; gives whether the channel held anything. */
  method SendChunks(rx: Receiver, fallback: QuicFallbackBuffer, host: Host) returns (r: Result<bool, string>)
    modifies rx, fallback, fallback.spill, fallback.disk, host
    ensures fallback.spill == old(fallback.spill) || fresh(fallback.spill)
    ensures var a := old(ToCome(rx, fallback, host));
            Ended(a, rx, fallback, host)
            && r == if a.error.None? then Ok(old(rx.queue) != []) else Err(a.error.value)
  {
    var hasData := false;
    while true
      invariant fallback.spill == old(fallback.spill) || fresh(fallback.spill)
      invariant ToCome(rx, fallback, host) == old(ToCome(rx, fallback, host))
      invariant hasData || rx.queue == old(rx.queue)
      invariant hasData ==> old(rx.queue) != []
      decreases |rx.queue|
    {
      var next := rx.Recv();
      if next.None? {
        break;
      }
      hasData := true;
      if next.value.Err? {
        return Err("chunk error: " + next.value.error);
      }
      var pushed := fallback.Push(next.value.value);
      if !pushed {
        return Err("fallback spill failed");
      }
      var sent := host.Send(next.value.value);
      if sent.Err? {
        return Err("send_data failed: " + sent.error);
      }
    }
    r := Ok(hasData);
  }

  /** One attempt over QUIC. */
  method PushQuicStreamed(url: string, rx: Receiver, fallback: QuicFallbackBuffer, host: Host)
    returns (r: Result<(), string>)
    requires fallback.State() == EMPTY_BUFFER && host.sends == 0 && host.received == []
    modifies rx, fallback, fallback.spill, fallback.disk, host
    ensures fallback.spill == old(fallback.spill) || fresh(fallback.spill)
    ensures var a := Quic(url, host.net, fallback.disk.plan, old(rx.queue));
            Ended(a, rx, fallback, host) && r == if a.error.None? then Ok(()) else Err(a.error.value)
  {
    if host.net.setup.Some? {
      return Err(host.net.setup.value);
    }
    var loop := SendChunks(rx, fallback, host);
    if loop.Err? {
      return Err(loop.error);
    }
    if !loop.value {
      return Err("no data received for QUIC push");
    }
    match host.net.reply
    case Lost(error) => r := Err(error);
    case Status(status, body, bodyLen) => r := QuicResult(url, status, body, bodyLen);
  }

  /** The upload over QUIC with its fallback. It is the one that UploadExactly is
      about; what follows from it is said again in the terms of the caller. */
  method PushFileStreaming(url: string, plan: Plan, rx: Receiver, host: Host) returns (outcome: Outcome)
    requires host.sends == 0 && host.received == []
    modifies rx, host
    ensures outcome == Upload(url, host.net, plan, old(rx.queue))
    ensures outcome.Sent? ==> host.received == OkBytes(old(rx.queue)) && host.net.Replies(old(rx.queue))
    ensures Clean(plan, 0, UploadOps(url, host.net, old(rx.queue))) ==>
      outcome == Promised(url, host.net, old(rx.queue))
    ensures |OkBytes(old(rx.queue))| <= QUIC_SPILL_THRESHOLD_BYTES ==>
      outcome == Promised(url, host.net, old(rx.queue))
    ensures host.net.Replies(old(rx.queue)) && Clean(plan, 0, AttemptOps(url, host.net, old(rx.queue))) ==>
      if 200 <= host.net.reply.status < 300 then outcome.Sent? else outcome.Rejected?
    ensures outcome.HttpBody? ==>
      (outcome.body == OkBytes(old(rx.queue)) <==> Clean(plan, 0, AttemptOps(url, host.net, old(rx.queue))))
  {
    ghost var items := rx.queue;
    UploadExactly(url, host.net, plan, items);
    QuicReplies(url, host.net, plan, items);
    if |OkBytes(items)| <= QUIC_SPILL_THRESHOLD_BYTES {
      SmallUploadsNeedNoDisk(url, host.net, plan, items);
    }
    var disk := new Disk(plan);
    var fallback := new QuicFallbackBuffer(disk);
    var r := PushQuicStreamed(url, rx, fallback, host);
    if r.Ok? {
      return Sent;
    }
    if Contains(r.error, STATUS_MARKER) {
      return Rejected(r.error);
    }
    outcome := ReplayOverHttp(rx, fallback);
  }

  // The rest of the channel is kept, too, and everything kept is sent.
  method ReplayOverHttp(rx: Receiver, fallback: QuicFallbackBuffer) returns (outcome: Outcome)
    modifies rx, fallback, fallback.spill, fallback.disk
    ensures outcome == Replayed(fallback.disk.plan, old(fallback.State()), old(rx.queue))
  {
    while true
      invariant fallback.spill == old(fallback.spill) || fresh(fallback.spill)
      invariant Replay(fallback.disk.plan, fallback.State(), rx.queue)
                == old(Replay(fallback.disk.plan, fallback.State(), rx.queue))
      decreases |rx.queue|
    {
      var next := rx.Recv();
      if next.None? {
        break;
      }
      if next.value.Ok? {
        var pushed := fallback.Push(next.value.value);
        if !pushed {
          return Failed("fallback spill failed");
        }
      }
    }
    if fallback.IsEmpty() {
      return NoData;
    }
    var chunks := fallback.Materialize();
    if chunks.Err? {
      return Failed(chunks.error);
    }
    var body := PushBufferedToHttp(chunks.value);
    outcome := HttpBody(body);
  }

  // The multipart body: the chunks one after the other.
  method PushBufferedToHttp(chunks: seq<bytes>) returns (data: bytes)
    ensures data == Flatten(chunks)
  {
    data := [];
    for i := 0 to |chunks|
      invariant data == Flatten(chunks[..i])
    {
      assert chunks[..i + 1] == chunks[..i] + [chunks[i]];
      FlattenPush(chunks[..i], chunks[i]);
      data := data + chunks[i];
    }
    assert chunks[..|chunks|] == chunks;
  }
}
