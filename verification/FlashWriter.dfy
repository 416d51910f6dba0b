/** Firmware download to flash: one page over the mailbox registers, and the loop over the image file. */
module FlashWriter {
  import opened MachineInts

  const PAGE := 256
  const EIO := 5
  const MMD_VEND1 := 30
  const MMD_VEND2 := 31
  const PAGE_CONTROL := 0x0f01 * 2
  const MBOX_DATA := 0xA
  const MBOX_CMD := 0xE
  const MBOX_DATA_HIGH := 0x1A
  const PROGRAMMED := 0x8000
  const TIMEOUT := 5000

  // ---- One page on the wire ----

  /** What the device sees: erase and reset with their outcome, register writes, and the answers to reads of
      the control register and to status polls (negative for a read that failed). */
  datatype Access =
    | FlashErase(ok: bool)
    | PhyReset(ok: bool)
    | Write(device: nat, register: nat, value: u16)
    | ControlRead(answer: int)
    | Status(answer: int)

  /** Two bytes as one word, the first the higher. */
  function Pair(hi: u8, lo: u8): (w: u16)
    ensures w / 256 == hi && w % 256 == lo
  {
    (hi as int) * 256 + lo as int
  }

  /** The i-th word of a page goes to the data register when i is even, else to the command register. */
  function WordAt(page: seq<u8>, i: nat): Access
    requires 2 * i + 1 < |page|
  {
    Write(MMD_VEND1, if i % 2 == 0 then MBOX_DATA else MBOX_CMD, Pair(page[2 * i], page[2 * i + 1]))
  }

  lemma FourBytes(page: seq<u8>, i: nat)
    requires 4 * i + 3 < |page|
    ensures WordAt(page, 2 * i) == Write(MMD_VEND1, MBOX_DATA, Pair(page[4 * i], page[4 * i + 1]))
    ensures WordAt(page, 2 * i + 1) == Write(MMD_VEND1, MBOX_CMD, Pair(page[4 * i + 2], page[4 * i + 3]))
  {}

  /** The first `n` words of a page. */
  function Words(page: seq<u8>, n: nat): (words: seq<Access>)
    requires 2 * n <= |page|
    ensures |words| == n
  {
    if n == 0 then [] else Words(page, n - 1) + [WordAt(page, n - 1)]
  }

  function Control(value: u16): Access {
    Write(MMD_VEND2, PAGE_CONTROL, value)
  }

  /** The control write that opens a page and its words, cut off after `n` writes. */
  function Opening(page: seq<u8>, control: u16, n: nat): seq<Access>
    requires |page| == PAGE && n <= 1 + PAGE / 2
  {
    if n == 0 then [] else [Control(control)] + Words(page, n - 1)
  }

  lemma OpeningStep(trace: seq<Access>, page: seq<u8>, control: u16, n: nat)
    requires |page| == PAGE && 1 <= n <= PAGE / 2
    ensures trace + Opening(page, control, n) + [WordAt(page, n - 1)] == trace + Opening(page, control, n + 1)
  {
    Regroup([Control(control)], Words(page, n - 1), [WordAt(page, n - 1)]);
    Regroup(trace, Opening(page, control, n), [WordAt(page, n - 1)]);
  }

  function Polled(polls: seq<int>): seq<Access> {
    if polls == [] then [] else Polled(polls[..|polls| - 1]) + [Status(polls[|polls| - 1])]
  }

  /** How far sending a page got: `writes` of its opening writes, or all of them and the control write
      that has it programmed, and then the answers to the status polls. */
  datatype Sending = Cut(writes: nat) | Submitted(polls: seq<int>)

  /** Polling stops at the first answer that is an error or reports the page programmed. */
  predicate Possible(sending: Sending) {
    match sending
    case Cut(writes) => writes <= 1 + PAGE / 2
    case Submitted(polls) => forall k :: 0 <= k < |polls| - 1 ==> 0 <= polls[k] != PROGRAMMED
  }

  /** The last poll found the page programmed. */
  predicate Reported(sending: Sending) {
    sending.Submitted? && sending.polls != [] && sending.polls[|sending.polls| - 1] == PROGRAMMED
  }

  /** The page was submitted and, unless no timeout was given, reported by a poll before the last allowed
      one; `timeout` is in milliseconds. */
  predicate ReportedInTime(sending: Sending, timeout: u32) {
    sending.Submitted? && (timeout == 0 || (Reported(sending) && |sending.polls| < 10 * timeout))
  }

  function Accesses(page: seq<u8>, control: u16, sending: Sending): seq<Access>
    requires |page| == PAGE && control + 1 < W16 && Possible(sending)
  {
    match sending
    case Cut(writes) => Opening(page, control, writes)
    case Submitted(polls) => Opening(page, control, 1 + |page| / 2) + [Control(control + 1)] + Polled(polls)
  }

  lemma SubmittedAccesses(trace: seq<Access>, page: seq<u8>, control: u16, polls: seq<int>)
    requires |page| == PAGE && control + 1 < W16 && Possible(Submitted(polls))
    ensures trace + Opening(page, control, 1 + |page| / 2) + [Control(control + 1)] + Polled(polls)
         == trace + Accesses(page, control, Submitted(polls))
  {
    var opening := Opening(page, control, 1 + |page| / 2);
    Regroup(trace, opening, [Control(control + 1)]);
    Regroup(trace, opening + [Control(control + 1)], Polled(polls));
  }

  // ---- The device ----

  /** The bytes taken for the page being sent, whether it was submitted, and the bytes of all pages that
      the device has reported programmed since the flash was erased. */
  datatype Device = Device(buffer: seq<u8>, submitted: bool, flash: seq<u8>)

  function Receive(d: Device, a: Access): Device {
    match a
    case FlashErase(ok) => if ok then Device([], false, []) else d
    case PhyReset(_) => d
    case Write(device, register, value) =>
      if device == MMD_VEND2 && register == PAGE_CONTROL then
        if value % 2 == 0 then Device([], false, d.flash) else d.(submitted := true)
      else if device == MMD_VEND1 && (register == MBOX_DATA || register == MBOX_CMD) then
        d.(buffer := d.buffer + [value / 256, value % 256])
      else d
    case ControlRead(_) => d
    case Status(answer) =>
      if answer == PROGRAMMED && d.submitted then Device([], false, d.flash + d.buffer) else d
  }

  function After(d: Device, accesses: seq<Access>): Device {
    if accesses == [] then d
    else Receive(After(d, accesses[..|accesses| - 1]), accesses[|accesses| - 1])
  }

  lemma {:induction false} AfterBoth(d: Device, a: seq<Access>, b: seq<Access>)
    ensures After(d, a + b) == After(After(d, a), b)
  {
    if b == [] {
      assert a + b == a;
    } else {
      assert (a + b)[..|a + b| - 1] == a + b[..|b| - 1];
      AfterBoth(d, a, b[..|b| - 1]);
    }
  }

  lemma AfterOne(d: Device, a: seq<Access>, x: Access)
    ensures After(d, a + [x]) == Receive(After(d, a), x)
  {
    assert (a + [x])[..|a|] == a;
  }

  lemma WordReceived(d: Device, page: seq<u8>, i: nat)
    requires 2 * i + 1 < |page|
    ensures Receive(d, WordAt(page, i)) == d.(buffer := d.buffer + [page[2 * i], page[2 * i + 1]])
  {}

  lemma TwoMore(s: seq<u8>, page: seq<u8>, i: nat)
    requires 2 * i + 1 < |page|
    ensures s + page[..2 * i] + [page[2 * i], page[2 * i + 1]] == s + page[..2 * i + 2]
  {}

  lemma AfterNextWord(d: Device, page: seq<u8>, i: nat)
    requires 2 * i + 1 < |page|
    ensures After(d, Words(page, i + 1)) == Receive(After(d, Words(page, i)), WordAt(page, i))
  {
    AfterOne(d, Words(page, i), WordAt(page, i));
  }

  /** No byte is lost, doubled or swapped on the way. */
  lemma {:induction false} WordsCarryTheBytes(d: Device, page: seq<u8>, n: nat)
    requires 2 * n <= |page|
    ensures After(d, Words(page, n)) == Device(d.buffer + page[..2 * n], d.submitted, d.flash)
  {
    if n > 0 {
      var i := n - 1;
      WordsCarryTheBytes(d, page, i);
      AfterNextWord(d, page, i);
      WordReceived(After(d, Words(page, i)), page, i);
      TwoMore(d.buffer, page, i);
      assert 2 * n == 2 * i + 2;
    }
  }

  lemma OpeningFillsTheBuffer(d: Device, page: seq<u8>, control: u16, n: nat)
    requires |page| == PAGE && control % 2 == 0 && 0 < n <= 1 + PAGE / 2
    ensures After(d, Opening(page, control, n)) == Device(page[..2 * (n - 1)], false, d.flash)
  {
    AfterBoth(d, [Control(control)], Words(page, n - 1));
    AfterOne(d, [], Control(control));
    WordsCarryTheBytes(Device([], false, d.flash), page, n - 1);
  }

  /** Polls that do not report the page change nothing. */
  lemma {:induction false} PollsChangeNothing(d: Device, polls: seq<int>)
    requires forall k :: 0 <= k < |polls| ==> polls[k] != PROGRAMMED
    ensures After(d, Polled(polls)) == d
  {
    if polls != [] {
      var front := polls[..|polls| - 1];
      PollsChangeNothing(d, front);
      AfterOne(d, Polled(front), Status(polls[|polls| - 1]));
    }
  }

  lemma PollsReport(d: Device, polls: seq<int>)
    requires d.submitted && Possible(Submitted(polls))
    ensures After(d, Polled(polls)) == if Reported(Submitted(polls)) then Device([], false, d.flash + d.buffer) else d
  {
    if polls != [] {
      var front := polls[..|polls| - 1];
      PollsChangeNothing(d, front);
      AfterOne(d, Polled(front), Status(polls[|polls| - 1]));
    }
  }

  lemma CutOutcome(d: Device, page: seq<u8>, control: u16, writes: nat)
    requires |page| == PAGE && control % 2 == 0 && writes <= 1 + PAGE / 2 && !d.submitted
    ensures var e := After(d, Opening(page, control, writes)); e.flash == d.flash && !e.submitted
  {
    if writes > 0 {
      OpeningFillsTheBuffer(d, page, control, writes);
    }
  }

  lemma SubmittedFillsTheBuffer(d: Device, page: seq<u8>, control: u16)
    requires |page| == PAGE && control % 2 == 0 && control + 1 < W16
    ensures After(d, Opening(page, control, 1 + |page| / 2) + [Control(control + 1)]) == Device(page, true, d.flash)
  {
    OpeningFillsTheBuffer(d, page, control, 1 + |page| / 2);
    AfterOne(d, Opening(page, control, 1 + |page| / 2), Control(control + 1));
    assert page[..|page|] == page;
  }

  /** What sending a page leaves in the device, however far it got: the flash has grown by the page if
      and only if the last poll reported it, and the page is submitted but unreported if and only if it was
      submitted and the last poll did not. */
  lemma PageOutcome(d: Device, page: seq<u8>, control: u16, sending: Sending)
    requires |page| == PAGE && control % 2 == 0 && control + 1 < W16 && Possible(sending)
    requires !d.submitted
    ensures var e := After(d, Accesses(page, control, sending));
            && e.flash == (if Reported(sending) then d.flash + page else d.flash)
            && e.submitted == (sending.Submitted? && !Reported(sending))
            && (e.submitted ==> e.buffer == page)
  {
    match sending
    case Cut(writes) => CutOutcome(d, page, control, writes);
    case Submitted(polls) =>
      SubmittedFillsTheBuffer(d, page, control);
      AfterBoth(d, Opening(page, control, 1 + |page| / 2) + [Control(control + 1)], Polled(polls));
      PollsReport(Device(page, true, d.flash), polls);
  }

  /** The control word a page is opened with: the one that was read, with its lowest bit cleared. */
  function ControlOf(asked: int): (control: u16)
    requires asked < W16
    ensures control % 2 == 0 && control + 1 < W16 && (asked >= 0 ==> asked - 1 <= control <= asked)
  {
    if asked < 0 then 0 else asked - asked % 2
  }

  /** The accesses of a page from the control read on. */
  function PageAccesses(page: seq<u8>, asked: int, sending: Sending): seq<Access>
    requires |page| == PAGE && asked < W16 && Possible(sending)
  {
    [ControlRead(asked)] + Accesses(page, ControlOf(asked), sending)
  }

  lemma NothingSent(trace: seq<Access>, page: seq<u8>, asked: int)
    requires |page| == PAGE && asked < W16
    ensures trace + [ControlRead(asked)] == trace + PageAccesses(page, asked, Cut(0))
  {
    assert PageAccesses(page, asked, Cut(0)) == [ControlRead(asked)];
  }

  lemma SentAfterRead(trace: seq<Access>, page: seq<u8>, asked: int, sending: Sending)
    requires |page| == PAGE && asked < W16 && Possible(sending)
    ensures trace + [ControlRead(asked)] + Accesses(page, ControlOf(asked), sending)
         == trace + PageAccesses(page, asked, sending)
  {
    Regroup(trace, [ControlRead(asked)], Accesses(page, ControlOf(asked), sending));
  }

  lemma ReadingChangesNothing(d: Device, page: seq<u8>, asked: int, sending: Sending)
    requires |page| == PAGE && asked < W16 && Possible(sending)
    ensures After(d, PageAccesses(page, asked, sending)) == After(d, Accesses(page, ControlOf(asked), sending))
  {
    AfterBoth(d, [ControlRead(asked)], Accesses(page, ControlOf(asked), sending));
    AfterOne(d, [], ControlRead(asked));
  }

  // ---- Pages of an image ----

  function Fill(n: nat): (s: seq<u8>)
    ensures |s| == n
  {
    if n == 0 then [] else Fill(n - 1) + [0xFF]
  }

  lemma {:induction false} FillAt(n: nat, k: nat)
    requires k < n
    ensures Fill(n)[k] == 0xFF
  {
    if k < n - 1 {
      FillAt(n - 1, k);
    }
  }

  function Min(a: nat, b: nat): nat {
    if a < b then a else b
  }

  function PageCount(image: seq<u8>): (n: nat)
    ensures PAGE * n >= |image| > PAGE * n - PAGE
  {
    (|image| + PAGE - 1) / PAGE
  }

  /** Page k of an image; what the image does not reach is left erased, which is all ones. */
  function PageOf(image: seq<u8>, k: nat): (page: seq<u8>)
    requires PAGE * k <= |image|
    ensures |page| == PAGE
  {
    var size := Min(|image| - PAGE * k, PAGE);
    image[PAGE * k..PAGE * k + size] + Fill(PAGE - size)
  }

  function PagesOf(image: seq<u8>): (pages: seq<seq<u8>>)
    ensures |pages| == PageCount(image)
  {
    seq(PageCount(image), k requires 0 <= k < PageCount(image) => PageOf(image, k))
  }

  lemma PageAt(image: seq<u8>, k: nat)
    requires k < PageCount(image)
    ensures PAGE * k < |image| && PagesOf(image)[k] == PageOf(image, k)
  {}

  lemma IsPageOf(s: seq<u8>, image: seq<u8>, k: nat)
    requires |s| == PAGE && PAGE * k <= |image|
    requires forall j :: 0 <= j < PAGE ==> s[j] == if j < |image| - PAGE * k then image[PAGE * k + j] else 0xFF
    ensures s == PageOf(image, k)
  {
    var size := Min(|image| - PAGE * k, PAGE);
    forall j | size <= j < PAGE ensures PageOf(image, k)[j] == 0xFF {
      FillAt(PAGE - size, j - size);
    }
  }

  // ---- The course of a download ----

  datatype Event =
    | Erase(ok: bool)
    | Page(data: seq<u8>, asked: int, sending: Sending)
    | Reset(ok: bool)

  /** What a download asked of the device, the last event outermost. */
  datatype History = Start | Then(before: History, e: Event)

  /** How a download can go; `pages` is how many pages were confirmed before the failure. */
  datatype Course =
    | NotStarted
    | EraseFailed
    | ShortRead(pages: nat, errno: nat)
    | PageFailed(pages: nat, reset: bool)
    | Finished(reset: bool)

  /** A page as gpy2xx_fw_fwr_page may send it. */
  predicate Sent(e: Event, data: seq<u8>) {
    && e.Page? && e.data == data && |data| == PAGE
    && e.asked < W16 && (e.asked < 0 ==> e.sending == Cut(0))
    && Possible(e.sending) && (e.sending.Submitted? ==> |e.sending.polls| <= 10 * TIMEOUT)
  }

  /** One of the polls but the last allowed one reported the page. */
  predicate Confirmed(sending: Sending) {
    Reported(sending) && |sending.polls| < 10 * TIMEOUT
  }

  /** A successful erase and then the first `n` pages, each confirmed. */
  predicate Begun(pages: seq<seq<u8>>, n: nat, h: History) {
    if n == 0 then h == Then(Start, Erase(true))
    else
      && h.Then? && n <= |pages|
      && Sent(h.e, pages[n - 1]) && Confirmed(h.e.sending) && Begun(pages, n - 1, h.before)
  }

  /** The pages up to the n-th are confirmed and the one after it is not. */
  predicate Failed(pages: seq<seq<u8>>, n: nat, h: History) {
    h.Then? && n < |pages| && Sent(h.e, pages[n]) && !Confirmed(h.e.sending) && Begun(pages, n, h.before)
  }

  /** What a course asks of the device, in order. */
  predicate Follows(pages: seq<seq<u8>>, course: Course, h: History) {
    match course
    case NotStarted => h == Start
    case EraseFailed => h == Then(Start, Erase(false))
    case ShortRead(n, _) => n < |pages| && Begun(pages, n, h)
    case PageFailed(n, reset) => h.Then? && h.e == Reset(reset) && Failed(pages, n, h.before)
    case Finished(reset) => h.Then? && h.e == Reset(reset) && Begun(pages, |pages|, h.before)
  }

  /** An event as accesses. */
  function OnTheWire(e: Event): seq<Access> {
    match e
    case Erase(ok) => [FlashErase(ok)]
    case Page(data, asked, sending) => if Sent(e, data) then PageAccesses(data, asked, sending) else []
    case Reset(ok) => [PhyReset(ok)]
  }

  function Trace(h: History): seq<Access> {
    match h
    case Start => []
    case Then(before, e) => Trace(before) + OnTheWire(e)
  }

  lemma TraceStep(trace: seq<Access>, trace0: seq<Access>, h: History, e: Event)
    requires trace == trace0 + Trace(h)
    ensures trace + OnTheWire(e) == trace0 + Trace(Then(h, e))
  {
    Regroup(trace0, Trace(h), OnTheWire(e));
  }

  lemma Regroup<T>(a: seq<T>, b: seq<T>, c: seq<T>)
    ensures a + b + c == a + (b + c)
  {}

  // ---- What is left in flash ----

  /** What the device holds after a download. */
  function Held(d: Device, h: History): Device {
    match h
    case Start => d
    case Then(before, e) => After(Held(d, before), OnTheWire(e))
  }

  /** It is what the accesses leave in it. */
  lemma {:induction false} HeldAfterTrace(d: Device, h: History)
    ensures Held(d, h) == After(d, Trace(h))
  {
    if h.Then? {
      HeldAfterTrace(d, h.before);
      AfterBoth(d, Trace(h.before), OnTheWire(h.e));
    }
  }

  /** What one more page changes in the device. */
  lemma HeldAfterPage(d: Device, h: History)
    requires h.Then? && h.e.Page? && Sent(h.e, h.e.data) && !Held(d, h.before).submitted
    ensures var was, now, e := Held(d, h.before), Held(d, h), h.e;
            && now.flash == (if Reported(e.sending) then was.flash + e.data else was.flash)
            && now.submitted == (e.sending.Submitted? && !Reported(e.sending))
            && (now.submitted ==> now.buffer == e.data)
  {
    ReadingChangesNothing(Held(d, h.before), h.e.data, h.e.asked, h.e.sending);
    PageOutcome(Held(d, h.before), h.e.data, ControlOf(h.e.asked), h.e.sending);
  }

  lemma OneAccess(d: Device, a: Access)
    ensures After(d, [a]) == Receive(d, a)
  {
    AfterOne(d, [], a);
  }

  /** The first `n` pages one after the other. */
  function Joined(pages: seq<seq<u8>>, n: nat): seq<u8>
    requires n <= |pages|
  {
    if n == 0 then [] else Joined(pages, n - 1) + pages[n - 1]
  }

  /** Whatever the device held before, after an erase and n confirmed pages its flash is those pages. */
  lemma {:induction false} FlashAfterPages(d: Device, pages: seq<seq<u8>>, n: nat, h: History)
    requires Begun(pages, n, h)
    ensures n <= |pages| && Held(d, h).flash == Joined(pages, n) && !Held(d, h).submitted
  {
    if n == 0 {
      OneAccess(d, FlashErase(true));
    } else {
      FlashAfterPages(d, pages, n - 1, h.before);
      HeldAfterPage(d, h);
    }
  }

  lemma HeldAfterReset(d: Device, h: History)
    requires h.Then? && h.e.Reset?
    ensures Held(d, h) == Held(d, h.before)
  {
    OneAccess(Held(d, h.before), PhyReset(h.e.ok));
  }

  /** The image up to `n` pages, then ones. */
  function Padded(image: seq<u8>, n: nat): seq<u8> {
    var size := Min(|image|, PAGE * n);
    image[..size] + Fill(PAGE * n - size)
  }

  lemma PaddedStep(image: seq<u8>, n: nat)
    requires PAGE * n < |image|
    ensures Padded(image, n) + PageOf(image, n) == Padded(image, n + 1)
  {
    var a, size := PAGE * n, Min(|image| - PAGE * n, PAGE);
    assert Fill(0) == [];
    assert Padded(image, n) == image[..a];
    assert Min(|image|, PAGE * (n + 1)) == a + size;
    assert image[..a] + image[a..a + size] == image[..a + size];
  }

  lemma {:induction false} PagesArePadded(image: seq<u8>, n: nat)
    requires n <= PageCount(image)
    ensures Joined(PagesOf(image), n) == Padded(image, n)
  {
    if n > 0 {
      PagesArePadded(image, n - 1);
      PageAt(image, n - 1);
      PaddedStep(image, n - 1);
    }
  }

  lemma AllPages(image: seq<u8>, n: nat)
    requires PAGE * n >= |image|
    ensures Padded(image, n) == image + Fill(PAGE * n - |image|)
  {
    assert image[..|image|] == image;
  }

  lemma WholePages(image: seq<u8>, n: nat)
    requires PAGE * n <= |image|
    ensures Padded(image, n) == image[..PAGE * n]
  {
    assert Fill(0) == [];
  }

  /** A download that finishes leaves the image in flash, padded with ones to whole pages. */
  lemma FinishedStoresTheImage(d: Device, image: seq<u8>, reset: bool, h: History)
    requires Follows(PagesOf(image), Finished(reset), h)
    ensures 0 <= PAGE * PageCount(image) - |image| < PAGE
    ensures After(d, Trace(h)).flash == image + Fill(PAGE * PageCount(image) - |image|)
  {
    FlashWhenFinished(d, PagesOf(image), reset, h);
    WholeImage(image);
  }

  lemma FlashWhenFinished(d: Device, pages: seq<seq<u8>>, reset: bool, h: History)
    requires Follows(pages, Finished(reset), h)
    ensures After(d, Trace(h)).flash == Joined(pages, |pages|)
  {
    HeldAfterTrace(d, h);
    HeldAfterReset(d, h);
    FlashAfterPages(d, pages, |pages|, h.before);
  }

  lemma WholeImage(image: seq<u8>)
    ensures Joined(PagesOf(image), PageCount(image)) == image + Fill(PAGE * PageCount(image) - |image|)
  {
    PagesArePadded(image, PageCount(image));
    AllPages(image, PageCount(image));
  }

  /** One that ends at a short read has left the image in flash up to there. */
  lemma ShortReadStoresAPrefix(d: Device, image: seq<u8>, n: nat, errno: nat, h: History)
    requires Follows(PagesOf(image), ShortRead(n, errno), h)
    ensures PAGE * n < |image| && After(d, Trace(h)).flash == image[..PAGE * n]
  {
    HeldAfterTrace(d, h);
    FlashAfterPages(d, PagesOf(image), n, h);
    PagesLeft(image, n);
  }

  /** The very last poll that the timeout allows reports the page. */
  predicate LateReport(sending: Sending) {
    && sending.Submitted? && |sending.polls| == 10 * TIMEOUT
    && sending.polls[|sending.polls| - 1] == PROGRAMMED
  }

  lemma UnconfirmedReport(sending: Sending)
    requires !Confirmed(sending) && (sending.Submitted? ==> |sending.polls| <= 10 * TIMEOUT)
    ensures Reported(sending) <==> LateReport(sending)
  {}

  lemma FlashAfterFailure(d: Device, pages: seq<seq<u8>>, n: nat, h: History)
    requires Failed(pages, n, h)
    ensures Held(d, h).flash == if LateReport(h.e.sending) then Joined(pages, n + 1) else Joined(pages, n)
    ensures Held(d, h).submitted <==> h.e.sending.Submitted? && !LateReport(h.e.sending)
  {
    FlashAfterPages(d, pages, n, h.before);
    HeldAfterPage(d, h);
    UnconfirmedReport(h.e.sending);
  }

  /** One that fails at page n + 1 has left the image in flash up to there, or that page as well: exactly
      when the page was submitted and the last poll allowed reported it.  It is open whether the device
      will yet program the page exactly when it was submitted and no poll reported it. */
  lemma FailedPage(d: Device, image: seq<u8>, n: nat, reset: bool, h: History)
    requires Follows(PagesOf(image), PageFailed(n, reset), h)
    ensures PAGE * n < |image|
    ensures var left, sending := After(d, Trace(h)), h.before.e.sending;
            && left.flash == (if LateReport(sending) then Padded(image, n + 1) else image[..PAGE * n])
            && (left.submitted <==> sending.Submitted? && !LateReport(sending))
  {
    FlashWhenFailed(d, PagesOf(image), n, reset, h);
    PagesLeft(image, n);
  }

  lemma PagesLeft(image: seq<u8>, n: nat)
    requires n < PageCount(image)
    ensures PAGE * n < |image|
    ensures Joined(PagesOf(image), n) == image[..PAGE * n]
    ensures Joined(PagesOf(image), n + 1) == Padded(image, n + 1)
  {
    PageAt(image, n);
    PagesArePadded(image, n);
    PagesArePadded(image, n + 1);
    WholePages(image, n);
  }

  lemma FlashWhenFailed(d: Device, pages: seq<seq<u8>>, n: nat, reset: bool, h: History)
    requires Follows(pages, PageFailed(n, reset), h)
    ensures n < |pages|
    ensures var left, sending := After(d, Trace(h)), h.before.e.sending;
            && left.flash == (if LateReport(sending) then Joined(pages, n + 1) else Joined(pages, n))
            && (left.submitted <==> sending.Submitted? && !LateReport(sending))
  {
    HeldAfterTrace(d, h);
    HeldAfterReset(d, h);
    FlashAfterFailure(d, pages, n, h.before);
  }

  // ---- The order of things ----

  /** Before the erase; with pages allowed; after a failed erase or the reset; out of order. */
  datatype Phase = Idle | Open | Closed | Disorder

  function PhaseOf(h: History): Phase {
    match h
    case Start => Idle
    case Then(before, Erase(ok)) => if PhaseOf(before) != Idle then Disorder else if ok then Open else Closed
    case Then(before, Page(_, _, _)) => if PhaseOf(before) != Open then Disorder else Open
    case Then(before, Reset(_)) => if PhaseOf(before) != Open then Disorder else Closed
  }

  lemma {:induction false} BegunIsOpen(pages: seq<seq<u8>>, n: nat, h: History)
    requires Begun(pages, n, h)
    ensures PhaseOf(h) == Open
  {
    if n > 0 {
      BegunIsOpen(pages, n - 1, h.before);
    }
  }

  /** Pages are sent only after a successful erase and before the reset, and once the flash has been erased
      the reset is asked for in every course but the short read. */
  lemma PagesBetweenEraseAndReset(pages: seq<seq<u8>>, course: Course, h: History)
    requires Follows(pages, course, h)
    ensures PhaseOf(h) == if course.NotStarted? then Idle else if course.ShortRead? then Open else Closed
  {
    match course
    case NotStarted =>
    case EraseFailed =>
    case ShortRead(n, _) => BegunIsOpen(pages, n, h);
    case PageFailed(n, _) => BegunIsOpen(pages, n, h.before.before);
    case Finished(_) => BegunIsOpen(pages, |pages|, h.before);
  }

  // ---- The programs ----

  /** The two registers whose answers count. */
  function ReadAccess(device: nat, register: nat, answer: int): seq<Access> {
    if device == MMD_VEND2 && register == PAGE_CONTROL then [ControlRead(answer)]
    else if device == MMD_VEND1 && register == MBOX_DATA_HIGH then [Status(answer)]
    else []
  }

  /** Every poll the timeout allows was made. */
  predicate TimedOut(sending: Sending, timeout: u32) {
    sending.Submitted? && timeout > 0 && |sending.polls| == 10 * timeout
  }

  class Phy {
    /** The accesses that were carried out. */
    var trace: seq<Access>
    /** How many accesses, file reads and calls of the other interfaces have failed. */
    ghost var refused: nat

    /** A register access answers with a word or a negative code. */
    method ReadMmd(device: nat, register: nat) returns (r: int)
      modifies this`trace, this`refused
      ensures r < W16 && refused == (if r < 0 then old(refused) + 1 else old(refused))
      ensures trace == old(trace) + ReadAccess(device, register, r)
    {
      r := *;
      if r >= W16 {
        r := -EIO;
      }
      if r < 0 {
        refused := refused + 1;
      }
      trace := trace + ReadAccess(device, register, r);
    }

    method WriteMmd(device: nat, register: nat, value: u16) returns (r: int)
      modifies this`trace, this`refused
      ensures r <= 0 && refused == (if r < 0 then old(refused) + 1 else old(refused))
      ensures trace == old(trace) + if r == 0 then [Write(device, register, value)] else []
    {
      var ok: bool := *;
      if ok {
        trace := trace + [Write(device, register, value)];
        return 0;
      }
      refused := refused + 1;
      return -EIO;
    }

    /** gpy2xx_fw_fwr_page.  Its accesses are those of some `sending`, whatever it answers; it answers
        success if and only if the page was submitted and, unless no timeout was given, a poll before the
        last allowed one reported it.  It fails for no other reason than a failed access or a timeout. */
    method FwrPage(buf: array<u8>, timeout: u32) returns (ret: int, ghost asked: int, ghost sending: Sending)
      requires buf.Length == PAGE
      modifies this`trace, this`refused
      ensures ret <= 0
      ensures timeout > (W32 - 1) / 10 ==> ret == -EINVAL && sending == Cut(0) && trace == old(trace)
      ensures asked < W16 && (asked < 0 ==> sending == Cut(0)) && Possible(sending)
      ensures sending.Submitted? ==> |sending.polls| <= 10 * timeout
      ensures timeout <= (W32 - 1) / 10 ==> trace == old(trace) + PageAccesses(buf[..], asked, sending)
      ensures ret == 0 <==> ReportedInTime(sending, timeout)
      ensures refused >= old(refused)
      ensures timeout <= (W32 - 1) / 10 && refused == old(refused) ==> ret == 0 || TimedOut(sending, timeout)
    {
      asked, sending := -1, Cut(0);
      if timeout > (W32 - 1) / 10 {
        return -EINVAL, asked, sending;
      }
      var data;
      ret, data := ReadControl();
      asked := ret;
      if ret < 0 {
        NothingSent(old(trace), buf[..], asked);
        return;
      }
      ret, sending := SendPage(buf, data, timeout);
      SentAfterRead(old(trace), buf[..], asked, sending);
    }

    /** The control word with its lowest bit cleared. */
    method ReadControl() returns (ret: int, data: u16)
      modifies this`trace, this`refused
      ensures ret < W16 && refused == (if ret < 0 then old(refused) + 1 else old(refused))
      ensures trace == old(trace) + [ControlRead(ret)] && data == ControlOf(ret)
    {
      ret := ReadMmd(MMD_VEND2, PAGE_CONTROL);
      data := if ret < 0 then 0 else ret - ret % 2;
    }

    /** The part from the opening control write on. */
    method SendPage(buf: array<u8>, control: u16, timeout: u32) returns (ret: int, ghost sending: Sending)
      requires buf.Length == PAGE && timeout <= (W32 - 1) / 10 && control + 1 < W16
      modifies this`trace, this`refused
      ensures ret <= 0 && Possible(sending) && (sending.Submitted? ==> |sending.polls| <= 10 * timeout)
      ensures trace == old(trace) + Accesses(buf[..], control, sending)
      ensures ret == 0 <==> ReportedInTime(sending, timeout)
      ensures refused >= old(refused) && (ret < 0 ==> refused > old(refused) || TimedOut(sending, timeout))
    {
      ghost var writes;
      ret, writes := WritePage(buf, control);
      if ret < 0 {
        sending := Cut(writes);
        return;
      }
      ret, sending := Submit(buf, control, timeout, old(trace));
    }

    /** The control write that has a page programmed, and the wait for it. */
    method Submit(buf: array<u8>, control: u16, timeout: u32, ghost start: seq<Access>)
      returns (ret: int, ghost sending: Sending)
      requires buf.Length == PAGE && timeout <= (W32 - 1) / 10 && control + 1 < W16
      requires trace == start + Opening(buf[..], control, 1 + PAGE / 2)
      modifies this`trace, this`refused
      ensures refused >= old(refused) && (ret < 0 ==> refused > old(refused) || TimedOut(sending, timeout))
      ensures ret <= 0 && Possible(sending) && (sending.Submitted? ==> |sending.polls| <= 10 * timeout)
      ensures trace == start + Accesses(buf[..], control, sending)
      ensures ret == 0 <==> ReportedInTime(sending, timeout)
    {
      sending := Cut(1 + PAGE / 2);
      ret := WriteMmd(MMD_VEND2, PAGE_CONTROL, control + 1);
      if ret < 0 {
        return;
      }
      ghost var polls := [];
      if timeout == 0 {
        ret := 0;
      } else {
        ret, polls := AwaitProgrammed(timeout);
      }
      sending := Submitted(polls);
      SubmittedAccesses(start, buf[..], control, polls);
    }

    /** The polling loop: ten polls for each millisecond. */
    method AwaitProgrammed(timeout: u32) returns (ret: int, ghost polls: seq<int>)
      requires 0 < timeout <= (W32 - 1) / 10
      modifies this`trace, this`refused
      ensures refused >= old(refused) && (ret < 0 ==> refused > old(refused) || |polls| == 10 * timeout)
      ensures ret <= 0 && trace == old(trace) + Polled(polls)
      ensures 0 < |polls| <= 10 * timeout && Possible(Submitted(polls))
      ensures ret == 0 <==> Reported(Submitted(polls)) && |polls| < 10 * timeout
    {
      var left: u32 := timeout * 10;
      polls := [];
      while true
        invariant left == timeout * 10 - |polls| && left > 0
        invariant trace == old(trace) + Polled(polls) && refused == old(refused)
        invariant forall k :: 0 <= k < |polls| ==> 0 <= polls[k] != PROGRAMMED
        decreases left
      {
        ret := ReadMmd(MMD_VEND1, MBOX_DATA_HIGH);
        assert (polls + [ret])[..|polls|] == polls;
        polls := polls + [ret];
        if ret < 0 {
          return;
        }
        left := left - 1;
        if ret == PROGRAMMED || left == 0 {
          break;
        }
      }
      ret := if left == 0 then -EIO else 0;
    }

    /** One more word of a page of which `writes` opening writes are done. */
    method SendWord(register: nat, value: u16, ghost start: seq<Access>, ghost page: seq<u8>, ghost control: u16,
                    ghost writes: nat)
      returns (ret: int, ghost now: nat)
      requires |page| == PAGE && 1 <= writes <= PAGE / 2
      requires WordAt(page, writes - 1) == Write(MMD_VEND1, register, value)
      requires trace == start + Opening(page, control, writes)
      modifies this`trace, this`refused
      ensures refused >= old(refused) && (ret < 0 ==> refused > old(refused))
      ensures ret <= 0 && now == (if ret == 0 then writes + 1 else writes)
      ensures trace == start + Opening(page, control, now)
    {
      ret := WriteMmd(MMD_VEND1, register, value);
      OpeningStep(start, page, control, writes);
      now := if ret == 0 then writes + 1 else writes;
    }

    /** The opening control write and the loop over the words of the page. */
    method WritePage(buf: array<u8>, control: u16) returns (ret: int, ghost writes: nat)
      requires buf.Length == PAGE
      modifies this`trace, this`refused
      ensures refused >= old(refused) && (ret < 0 ==> refused > old(refused))
      ensures ret <= 0 && writes <= 1 + PAGE / 2 && (ret == 0 ==> writes == 1 + PAGE / 2)
      ensures trace == old(trace) + Opening(buf[..], control, writes)
    {
      writes := 0;
      ret := WriteMmd(MMD_VEND2, PAGE_CONTROL, control);
      if ret < 0 {
        return;
      }
      var size := 0;
      writes := 1;
      ghost var i, page := 0, buf[..];
      while size < PAGE
        invariant size == 4 * i <= PAGE && writes == 1 + 2 * i && ret == 0 && refused >= old(refused)
        invariant trace == old(trace) + Opening(page, control, writes)
        decreases PAGE - size
      {
        FourBytes(page, i);
        ret, writes := SendWord(MBOX_DATA, Pair(buf[size], buf[size + 1]), old(trace), page, control, writes);
        if ret < 0 {
          return;
        }
        ret, writes := SendWord(MBOX_CMD, Pair(buf[size + 2], buf[size + 3]), old(trace), page, control, writes);
        if ret < 0 {
          return;
        }
        size := size + 4;
        i := i + 1;
      }
    }

    /** The answer of a call whose implementation is not modelled. */
    method Answer() returns (ret: int)
      modifies this`refused
      ensures ret <= 0 && refused == (if ret < 0 then old(refused) + 1 else old(refused))
    {
      ret := *;
      if ret < 0 {
        refused := refused + 1;
      } else {
        ret := 0;
      }
    }

    method EraseFlash() returns (ret: int)
      modifies this`trace, this`refused
      ensures refused == if ret < 0 then old(refused) + 1 else old(refused)
      ensures ret <= 0 && trace == old(trace) + OnTheWire(Erase(ret == 0))
    {
      ret := Answer();
      trace := trace + [FlashErase(ret == 0)];
    }

    method ProgramPage(buf: array<u8>) returns (ret: int, ghost e: Event)
      requires buf.Length == PAGE
      modifies this`trace, this`refused
      ensures Sent(e, buf[..])
      ensures ret <= 0 && (ret == 0 <==> Confirmed(e.sending))
      ensures refused >= old(refused) && (ret < 0 ==> refused > old(refused) || TimedOut(e.sending, TIMEOUT))
      ensures trace == old(trace) + OnTheWire(e)
    {
      ghost var asked, sending;
      ret, asked, sending := FwrPage(buf, TIMEOUT);
      e := Page(buf[..], asked, sending);
    }

    method ResetPhy() returns (ret: int)
      modifies this`trace, this`refused
      ensures refused == if ret < 0 then old(refused) + 1 else old(refused)
      ensures ret <= 0 && trace == old(trace) + OnTheWire(Reset(ret == 0))
    {
      ret := Answer();
      trace := trace + [PhyReset(ret == 0)];
    }

    /** Fills the buffer with ones, then reads; a read may deliver less than it was asked for. */
    method ReadPage(buf: array<u8>, image: seq<u8>, pos: nat, ghost k: nat) returns (count: nat)
      requires buf.Length == PAGE && pos == PAGE * k < |image|
      modifies buf, this`refused
      ensures count <= Min(|image| - PAGE * k, PAGE)
      ensures refused == if count < Min(|image| - PAGE * k, PAGE) then old(refused) + 1 else old(refused)
      ensures count == Min(|image| - PAGE * k, PAGE) ==> buf[..] == PageOf(image, k)
    {
      for i := 0 to PAGE
        invariant refused == old(refused)
        invariant forall j :: 0 <= j < i ==> buf[j] == 0xFF
      {
        buf[i] := 0xFF;
      }
      var wrsize := Min(|image| - pos, PAGE);
      var delivered: nat := *;
      count := Min(delivered, wrsize);
      for i := 0 to count
        invariant refused == old(refused)
        invariant forall j :: 0 <= j < PAGE ==> buf[j] == if j < i then image[pos + j] else 0xFF
      {
        buf[i] := image[pos + i];
      }
      if count == wrsize {
        IsPageOf(buf[..], image, k);
      } else {
        refused := refused + 1;
      }
    }

    /** fw_fast_write.  Its history is that of a course, and its accesses those of the history.  It fails for
        no other reason than a failed call or access, a short read, or a page that timed out. */
    method FastWrite(image: seq<u8>) returns (ret: int, ghost course: Course, ghost h: History)
      requires |image| < W32
      modifies this
      ensures Follows(PagesOf(image), course, h)
      ensures trace == old(trace) + Trace(h)
      ensures (ret == 0) == (course == Finished(true) || (course.ShortRead? && course.errno == 0))
      ensures course.ShortRead? ==> ret == 0 - course.errno
      ensures !course.ShortRead? && course != Finished(true) ==> ret < 0
      ensures refused == old(refused) ==>
                || course == Finished(true)
                || (course.PageFailed? && TimedOut(h.before.e.sending, TIMEOUT))
    {
      ghost var trace0 := trace;
      course, h := NotStarted, Start;
      ret := Answer();
      if ret < 0 {
        return;
      }
      ret := EraseFlash();
      TraceStep(trace0, trace0, Start, Erase(ret == 0));
      h := Then(Start, Erase(ret == 0));
      if ret < 0 {
        course := EraseFailed;
        return;
      }
      var short, ret2;
      ghost var k;
      ret2, short, k, h := WritePages(image, trace0, h);
      if short {
        course := ShortRead(k, 0 - ret2);
        return ret2, course, h;
      }
      ghost var trace1 := trace;
      ret := ResetPhy();
      TraceStep(trace1, trace0, h, Reset(ret == 0));
      h := Then(h, Reset(ret == 0));
      course := if ret2 < 0 then PageFailed(k, ret == 0) else Finished(ret == 0);
      if ret < 0 {
        return;
      }
      ret := ret2;
    }

    /** The loop over the pages; `k` of them are confirmed.  A short read ends the whole download. */
    method WritePages(image: seq<u8>, ghost trace0: seq<Access>, ghost start: History)
      returns (ret: int, short: bool, ghost k: nat, ghost h: History)
      requires start == Then(Start, Erase(true)) && trace == trace0 + Trace(start)
      modifies this`trace, this`refused
      ensures ret <= 0 && refused >= old(refused)
      ensures trace == trace0 + Trace(h)
      ensures short ==> k < PageCount(image) && Begun(PagesOf(image), k, h) && refused > old(refused)
      ensures !short && ret == 0 ==> k == PageCount(image) && Begun(PagesOf(image), k, h)
      ensures !short && ret < 0 ==>
                && Failed(PagesOf(image), k, h)
                && (refused > old(refused) || TimedOut(h.e.sending, TIMEOUT))
    {
      var filesize := |image|;
      var buf := new u8[PAGE];
      ghost var pages := PagesOf(image);
      ret, short, k, h := 0, false, 0, start;
      while filesize > 0
        invariant ret == 0 && !short && k <= |pages| && Begun(pages, k, h) && trace == trace0 + Trace(h)
        invariant refused >= old(refused)
        invariant filesize == if PAGE * k < |image| then |image| - PAGE * k else 0
        invariant filesize > 0 <==> k < |pages|
      {
        ghost var e, trace1 := Reset(false), trace;
        ret, short, e := NextPage(image, filesize, buf, pages, k);
        if short {
          return;
        }
        TraceStep(trace1, trace0, h, e);
        h := Then(h, e);
        if ret < 0 {
          return;
        }
        filesize := filesize - Min(filesize, PAGE);
        k := k + 1;
      }
    }

    /** One round of the loop: a page is read and, unless the read falls short, programmed. */
    method NextPage(image: seq<u8>, filesize: nat, buf: array<u8>, ghost pages: seq<seq<u8>>, ghost k: nat)
      returns (ret: int, short: bool, ghost e: Event)
      requires buf.Length == PAGE && pages == PagesOf(image)
      requires k < |pages| && 0 < filesize == |image| - PAGE * k
      modifies this`trace, this`refused, buf
      ensures ret <= 0 && refused >= old(refused)
      ensures short ==> refused > old(refused) && trace == old(trace)
      ensures !short ==>
                && Sent(e, pages[k]) && trace == old(trace) + OnTheWire(e) && (ret == 0 <==> Confirmed(e.sending))
                && (ret < 0 ==> refused > old(refused) || TimedOut(e.sending, TIMEOUT))
    {
      e, short := Reset(false), false;
      var wrsize := Min(filesize, PAGE);
      var count := ReadPage(buf, image, |image| - filesize, k);
      if count != wrsize {
        var errno: int := *;
        return if errno > 0 then 0 - errno else 0, true, e;
      }
      PageAt(image, k);
      ret, e := ProgramPage(buf);
    }
  }
}
