/**
 * `readHIST`: pulling the history log out of the device's flash, one
 * 4096-byte page at a time, stopping early at erased flash and finally
 * dropping the erased tail.
 */
module History {
  import opened Wrappers
  import opened Bytes
  import opened Wire

  const PAGE_COUNT: nat := 16
  const PAGE_SIZE: nat := 4096

  /** `allspir[-k]` on a buffer shorter than `k`: the `IndexError` of the end-of-data test. */
  datatype HistError = ShortBuffer

  /** The buffer's last three bytes are all erased flash. */
  predicate EndsErased(buf: seq<byte>)
  {
    |buf| >= 3 && buf[|buf| - 1] == ERASED && buf[|buf| - 2] == ERASED && buf[|buf| - 3] == ERASED
  }

  /**
   * The end-of-data test as Python evaluates it: `allspir[-1]`, then
   * `allspir[-2]`, then `allspir[-3]`, each read only while the ones before
   * were `0xFF`, and each raising on a buffer too short to hold it.
   */
  function TailCheck(buf: seq<byte>): (r: Result<bool, HistError>)
    ensures |buf| >= 3 ==> r.Success?
    ensures r == Success(true) ==> EndsErased(buf)
  {
    var n := |buf|;
    if n < 1 then Failure(ShortBuffer)
    else if buf[n - 1] != ERASED then Success(false)
    else if n < 2 then Failure(ShortBuffer)
    else if buf[n - 2] != ERASED then Success(false)
    else if n < 3 then Failure(ShortBuffer)
    else Success(buf[n - 3] == ERASED)
  }

  /**
   * The test answers whether the buffer ends in three erased bytes, and
   * raises exactly on a buffer of fewer than three bytes that are all erased.
   */
  lemma TailCheckMeaning(buf: seq<byte>)
    ensures TailCheck(buf).Success? ==> (TailCheck(buf).value <==> EndsErased(buf))
    ensures TailCheck(buf).Failure? <==> |buf| < 3 && forall i :: 0 <= i < |buf| ==> buf[i] == ERASED
  {
  }

  /** `s.rstrip(chr(0xff))`. */
  function StripErased(s: seq<byte>): (r: seq<byte>)
    ensures r <= s
    ensures r == [] || r[|r| - 1] != ERASED
    ensures forall i :: |r| <= i < |s| ==> s[i] == ERASED
  {
    if s == [] || s[|s| - 1] != ERASED then s
    else StripErased(s[..|s| - 1])
  }

  /** The result is the one prefix of `s` that has no erased tail and leaves only erased bytes behind. */
  lemma StripErasedUnique(s: seq<byte>, p: seq<byte>)
    requires p <= s
    requires p == [] || p[|p| - 1] != ERASED
    requires forall i :: |p| <= i < |s| ==> s[i] == ERASED
    ensures p == StripErased(s)
  {
    var r := StripErased(s);
    if |p| != |r| {
      assert false;
    }
  }

  /** Stripping twice is stripping once. */
  lemma StripErasedIdempotent(s: seq<byte>)
    ensures StripErased(StripErased(s)) == StripErased(s)
  {
  }

  /** Erased flash appended to an image changes nothing once stripped. */
  lemma StripErasedPadding(s: seq<byte>, k: nat)
    ensures StripErased(s + Erased(k)) == StripErased(s)
  {
    var t := s + Erased(k);
    var r := StripErased(s);
    assert forall i :: |r| <= i < |t| ==> t[i] == ERASED by {
      forall i | |r| <= i < |t| ensures t[i] == ERASED {
        if i < |s| { assert t[i] == s[i]; }
      }
    }
    StripErasedUnique(t, r);
  }

  /** The SPIR command for page `i`: address `00 (i*16) 00`, length field `0F FF`. */
  function PageCommand(i: nat): seq<byte>
    requires i < PAGE_COUNT
  {
    SPIR_OPEN + [0, i * 16, 0, 0x0F, 0xFF] + CLOSE
  }

  /** Page `i` as `readHIST` asks for it: the page command, reading 4096 bytes back. */
  function PageRequest(link: Link, i: nat): Exchange
    requires i < PAGE_COUNT
  {
    Exchange(Request(PageCommand(i), PAGE_SIZE), link(PageCommand(i), PAGE_SIZE))
  }

  /**
   * The page request is `getSPIR(ser, i * 4096, 4096)`: its command asks
   * for 4095 bytes at address `i * 4096` and 4096 bytes are read.
   */
  lemma GetSpirPage(link: Link, i: nat)
    requires i < PAGE_COUNT
    ensures GetSpir(link, i * PAGE_SIZE, PAGE_SIZE) == Some(PageRequest(link, i))
    ensures ParseSpir(PageRequest(link, i).request.command) == Some(SpirFields(i * PAGE_SIZE, PAGE_SIZE - 1))
    ensures PageRequest(link, i).request.readLength == PAGE_SIZE
  {
    var cmd := SpirCommand(i * PAGE_SIZE, PAGE_SIZE).value;
    ParseSpirCommand(i * PAGE_SIZE, PAGE_SIZE);
    PageAddress(i);
    assert PackU16(0x0FFF) == [0x0F, 0xFF];
    assert cmd == PageCommand(i);
  }

  lemma PageAddress(i: nat)
    requires i < PAGE_COUNT
    ensures PackU32(i * PAGE_SIZE) == [0, 0, i * 16, 0]
  {
    var x := i * 0x1000;
    assert x == (i * 16) * 0x100;
    assert x / 0x100 == i * 16 && x % 0x100 == 0;
    assert (i * 16) / 0x100 == 0 && (i * 16) % 0x100 == i * 16;
  }

  /** The replies to pages `0 .. k - 1`, concatenated. */
  function Pages(link: Link, k: nat): (r: seq<byte>)
    requires k <= PAGE_COUNT
    ensures forall j :: 0 <= j <= k ==> Pages(link, j) <= r
  {
    if k == 0 then [] else Pages(link, k - 1) + PageRequest(link, k - 1).reply
  }

  /** The exchanges for pages `0 .. k - 1`, in order. */
  function PageLog(link: Link, k: nat): (r: seq<Exchange>)
    requires k <= PAGE_COUNT
    ensures |r| == k
  {
    if k == 0 then [] else PageLog(link, k - 1) + [PageRequest(link, k - 1)]
  }

  lemma {:induction false} PageLogMeaning(link: Link, k: nat)
    requires k <= PAGE_COUNT
    ensures forall i :: 0 <= i < k ==> PageLog(link, k)[i] == PageRequest(link, i)
  {
    if k > 0 {
      PageLogMeaning(link, k - 1);
    }
  }

  /** `getSPIR(ser, chunk * 4096, 4096)`, one page of the sweep. */
  method ReadPage(link: Link, chunk: nat) returns (x: Exchange)
    requires chunk < PAGE_COUNT
    ensures x == PageRequest(link, chunk)
    ensures ParseSpir(x.request.command) == Some(SpirFields(chunk * PAGE_SIZE, PAGE_SIZE - 1))
  {
    GetSpirPage(link, chunk);
    x := GetSpir(link, chunk * PAGE_SIZE, PAGE_SIZE).value;
  }

  /** No page before page `k - 1` ended the paging: the test said "go on" after each of them. */
  predicate GoesOnBefore(link: Link, k: nat)
    requires k <= PAGE_COUNT
  {
    forall j :: 1 <= j < k ==> TailCheck(Pages(link, j)) == Success(false)
  }

  /** One turn of the sweep: page `chunk` requested and its reply appended to the buffer. */
  method FetchPage(link: Link, chunk: nat, allspir0: seq<byte>, log0: seq<Exchange>) returns (allspir: seq<byte>, log: seq<Exchange>)
    requires chunk < PAGE_COUNT && allspir0 == Pages(link, chunk) && log0 == PageLog(link, chunk)
    ensures allspir == Pages(link, chunk + 1) && log == PageLog(link, chunk + 1)
  {
    var x := ReadPage(link, chunk);
    log := log0 + [x];
    allspir := allspir0 + x.reply;
  }

  /**
   * `readHIST`: requests pages 0, 1, ... of 4096 bytes at address
   * `page * 4096`, appends each reply, and stops after the first page after
   * which the buffer ends in `FF FF FF`, or after page 15; then strips every
   * trailing `0xFF`. `log` is the traffic on the link.
   */
  method ReadHist(link: Link) returns (image: Result<seq<byte>, HistError>, log: seq<Exchange>)
    ensures 1 <= |log| <= PAGE_COUNT
    ensures log == PageLog(link, |log|)
    ensures GoesOnBefore(link, |log|)
    ensures |log| < PAGE_COUNT ==> TailCheck(Pages(link, |log|)) != Success(false)
    ensures image.Failure? <==> TailCheck(Pages(link, |log|)).Failure?
    ensures image.Success? ==> image.value == StripErased(Pages(link, |log|))
  {
    var allspir: seq<byte> := [];
    log := [];
    var chunk := 0;
    while chunk < PAGE_COUNT
      invariant 0 <= chunk <= PAGE_COUNT && |log| == chunk
      invariant log == PageLog(link, chunk)
      invariant GoesOnBefore(link, chunk)
      invariant chunk >= 1 ==> TailCheck(Pages(link, chunk)) == Success(false)
      invariant allspir == Pages(link, chunk)
    {
      allspir, log := FetchPage(link, chunk, allspir, log);
      var last := TailCheck(allspir);
      if last.Failure? {
        image := Failure(last.error);
        return;
      }
      assert GoesOnBefore(link, chunk + 1) by {
        forall j | 1 <= j < chunk + 1 ensures TailCheck(Pages(link, j)) == Success(false) {
          if j < chunk {
            assert GoesOnBefore(link, chunk);
          }
        }
      }
      if last.value {
        assert GoesOnBefore(link, |log|);
        break;
      }
      chunk := chunk + 1;
    }
    image := Success(StripErased(allspir));
  }

  /**
   * The sweep stops at the first erased tail: as long as it went on, no
   * buffer before the last page read ended in `FF FF FF`, and none was too
   * short to test.
   */
  lemma WentOnBeforeErased(link: Link, k: nat, j: nat)
    requires k <= PAGE_COUNT && GoesOnBefore(link, k)
    requires 1 <= j < k
    ensures !EndsErased(Pages(link, j)) && TailCheck(Pages(link, j)).Success?
  {
    TailCheckMeaning(Pages(link, j));
  }

  /** Flash that was never written strips to an empty image. */
  lemma BlankFlashIsEmpty(n: nat)
    ensures StripErased(Erased(n)) == []
  {
    StripErasedPadding([], n);
    assert [] + Erased(n) == Erased(n);
  }
}
