/** The presence check of the card handler: up to three attempts to wake
    the card in the field and compare its UID with a cached one. */
module Presence {
  import opened Bytes
  import opened Card

  /** Attempts `IsCardPresent` makes before it gives up. */
  const RETRIES: nat := 3

  /** Whether a UID read from the card equals the cached serial number
      (`SerialNumberLength`, `SerialNumber`): same length, then the same
      bytes. */
  predicate SameCard(uid: seq<byte>, length: nat, bytes: seq<byte>)
  {
    length == |uid| && length <= |bytes| && uid == bytes[..length]
  }

  /** Where the retry loop stands: whether the card was recognised, where
      the wake-up and serial-number scripts stand, the UID the reader
      holds, and the operations issued so far. */
  datatype Probe = Probe(found: bool, wakeIndex: nat, serialIndex: nat, uid: seq<byte>, trace: seq<Op>)

  /** The loop before its first round. */
  function Start(wi: nat, si: nat, uid: seq<byte>): Probe
  {
    Probe(false, wi, si, uid, [])
  }

  /** One round of the retry loop: once the card is recognised nothing
      more happens; a round whose wake-up fails issues nothing else;
      otherwise it reads the serial number and compares it. */
  function Round(wakeups: seq<bool>, serials: seq<SerialAnswer>, length: nat, bytes: seq<byte>, p: Probe): (r: Probe)
    ensures p.found ==> r == p
    ensures !p.found ==> r.wakeIndex == p.wakeIndex + 1 && p.trace < r.trace
    ensures r.found && !p.found ==> SameCard(r.uid, length, bytes)
  {
    if p.found then p
    else if !Answer(wakeups, p.wakeIndex) then
      p.(wakeIndex := p.wakeIndex + 1, trace := p.trace + [WakeupA])
    else
      var a := SerialAt(serials, p.serialIndex);
      Probe(a.Serial? && SameCard(a.uid, length, bytes), p.wakeIndex + 1, p.serialIndex + 1,
            if a.Serial? then a.uid else p.uid, p.trace + [WakeupA, ReadSerial])
  }

  /** The first `k` rounds from `p`. */
  function Rounds(wakeups: seq<bool>, serials: seq<SerialAnswer>, length: nat, bytes: seq<byte>,
                  p: Probe, k: nat): Probe
    decreases k
  {
    if k == 0 then p else Round(wakeups, serials, length, bytes, Rounds(wakeups, serials, length, bytes, p, k - 1))
  }

  /** The whole check started at wake-up answer `wi`, serial answer `si`,
      with `uid` in the reader. */
  function ProbeCard(wakeups: seq<bool>, serials: seq<SerialAnswer>, wi: nat, si: nat,
                     uid: seq<byte>, length: nat, bytes: seq<byte>): (p: Probe)
    ensures wi <= p.wakeIndex <= wi + RETRIES
    ensures p.found ==> SameCard(p.uid, length, bytes)
  {
    RoundsTrace(wakeups, serials, wi, si, uid, length, bytes, RETRIES);
    Rounds(wakeups, serials, length, bytes, Start(wi, si, uid), RETRIES)
  }

  /** A serial number cached the way `GetCardSerial` caches it (the UID
      copied into a zeroed buffer of `MAX_UID` bytes, with its length)
      matches that UID and no other. */
  lemma CachedSerialRecognised(uid: seq<byte>, other: seq<byte>)
    requires |uid| <= MAX_UID
    ensures SameCard(uid, |uid|, PadTo(uid, MAX_UID))
    ensures SameCard(other, |uid|, PadTo(uid, MAX_UID)) <==> other == uid
  {
  }

  /** Once the card is recognised, later rounds change nothing: the loop
      has stopped. */
  lemma {:induction false} RoundsStop(wakeups: seq<bool>, serials: seq<SerialAnswer>, length: nat, bytes: seq<byte>,
                                      p: Probe, m: nat, n: nat)
    requires m <= n && Rounds(wakeups, serials, length, bytes, p, m).found
    decreases n
    ensures Rounds(wakeups, serials, length, bytes, p, n) == Rounds(wakeups, serials, length, bytes, p, m)
  {
    if n > m {
      RoundsStop(wakeups, serials, length, bytes, p, m, n - 1);
    }
  }

  /** How many of the `j` wake-ups from answer `wi` on succeed; each
      successful wake-up consumes one serial-number answer. */
  function WokenBefore(wakeups: seq<bool>, wi: nat, j: nat): nat
    decreases j
  {
    if j == 0 then 0 else WokenBefore(wakeups, wi, j - 1) + (if Answer(wakeups, wi + j - 1) then 1 else 0)
  }

  /** Round `j` of a check started at `wi`, `si` wakes the card and reads
      the cached UID. */
  predicate RoundMatches(wakeups: seq<bool>, serials: seq<SerialAnswer>, wi: nat, si: nat,
                         length: nat, bytes: seq<byte>, j: nat)
  {
    && Answer(wakeups, wi + j)
    && var a := SerialAt(serials, si + WokenBefore(wakeups, wi, j));
       a.Serial? && SameCard(a.uid, length, bytes)
  }

  /** One of the first `k` rounds matches. */
  predicate SomeRoundMatches(wakeups: seq<bool>, serials: seq<SerialAnswer>, wi: nat, si: nat,
                             length: nat, bytes: seq<byte>, k: nat)
  {
    exists j :: 0 <= j < k && RoundMatches(wakeups, serials, wi, si, length, bytes, j)
  }

  lemma SomeRoundMatchesSnoc(wakeups: seq<bool>, serials: seq<SerialAnswer>, wi: nat, si: nat,
                             length: nat, bytes: seq<byte>, k: nat)
    requires k > 0
    ensures SomeRoundMatches(wakeups, serials, wi, si, length, bytes, k)
        <==> SomeRoundMatches(wakeups, serials, wi, si, length, bytes, k - 1)
             || RoundMatches(wakeups, serials, wi, si, length, bytes, k - 1)
  {
    if SomeRoundMatches(wakeups, serials, wi, si, length, bytes, k) {
      var j :| 0 <= j < k && RoundMatches(wakeups, serials, wi, si, length, bytes, j);
      if j < k - 1 {
        assert 0 <= j < k - 1;
      }
    }
    if RoundMatches(wakeups, serials, wi, si, length, bytes, k - 1) {
      assert 0 <= k - 1 < k;
    }
  }

  /** After `k` rounds the loop has recognised the card exactly when one of
      those rounds woke it and read a UID equal, in length and in every
      byte, to the cached one; until then every round consumed one wake-up
      answer and one serial answer per successful wake-up. */
  lemma {:induction false} RoundsFound(wakeups: seq<bool>, serials: seq<SerialAnswer>, wi: nat, si: nat,
                                       uid: seq<byte>, length: nat, bytes: seq<byte>, k: nat)
    decreases k
    ensures var p := Rounds(wakeups, serials, length, bytes, Start(wi, si, uid), k);
      && (p.found <==> SomeRoundMatches(wakeups, serials, wi, si, length, bytes, k))
      && (!p.found ==> p.wakeIndex == wi + k && p.serialIndex == si + WokenBefore(wakeups, wi, k))
  {
    if k > 0 {
      RoundsFound(wakeups, serials, wi, si, uid, length, bytes, k - 1);
      var p := Rounds(wakeups, serials, length, bytes, Start(wi, si, uid), k - 1);
      if p.found {
        var j :| 0 <= j < k - 1 && RoundMatches(wakeups, serials, wi, si, length, bytes, j);
        assert 0 <= j < k && RoundMatches(wakeups, serials, wi, si, length, bytes, j);
      } else {
        assert wi + k - 1 == wi + (k - 1);
        var hit := RoundMatches(wakeups, serials, wi, si, length, bytes, k - 1);
        assert Round(wakeups, serials, length, bytes, p).found == hit;
        SomeRoundMatchesSnoc(wakeups, serials, wi, si, length, bytes, k);
      }
    }
  }

  /** The check reports the card exactly when one of its `RETRIES` rounds
      recognises it. */
  lemma ProbeCardFound(wakeups: seq<bool>, serials: seq<SerialAnswer>, wi: nat, si: nat,
                       uid: seq<byte>, length: nat, bytes: seq<byte>)
    ensures ProbeCard(wakeups, serials, wi, si, uid, length, bytes).found
        <==> SomeRoundMatches(wakeups, serials, wi, si, length, bytes, RETRIES)
  {
    RoundsFound(wakeups, serials, wi, si, uid, length, bytes, RETRIES);
  }

  /** A round only appends wake-ups and serial-number reads to the trace. */
  lemma RoundIssues(wakeups: seq<bool>, serials: seq<SerialAnswer>, length: nat, bytes: seq<byte>, p: Probe)
    requires forall i :: 0 <= i < |p.trace| ==> p.trace[i] == WakeupA || p.trace[i] == ReadSerial
    ensures var q := Round(wakeups, serials, length, bytes, p);
      forall i :: 0 <= i < |q.trace| ==> q.trace[i] == WakeupA || q.trace[i] == ReadSerial
  {
    var q := Round(wakeups, serials, length, bytes, p);
    forall i | 0 <= i < |q.trace|
      ensures q.trace[i] == WakeupA || q.trace[i] == ReadSerial
    {
      if i < |p.trace| {
        assert q.trace[i] == p.trace[i];
      }
    }
  }

  /** The rounds only wake the card and read its serial number; each
      consumes one wake-up answer, at most `k` in all; a check that
      recognises the card leaves the reader holding exactly the cached
      UID. */
  lemma {:induction false} RoundsTrace(wakeups: seq<bool>, serials: seq<SerialAnswer>, wi: nat, si: nat,
                                       uid: seq<byte>, length: nat, bytes: seq<byte>, k: nat)
    decreases k
    ensures var p := Rounds(wakeups, serials, length, bytes, Start(wi, si, uid), k);
      && (forall i :: 0 <= i < |p.trace| ==> p.trace[i] == WakeupA || p.trace[i] == ReadSerial)
      && wi <= p.wakeIndex <= wi + k
      && (k > 0 && p.found ==> wi < p.wakeIndex)
      && p.serialIndex - si == WokenBefore(wakeups, wi, p.wakeIndex - wi)
      && (p.found ==> |p.uid| == length && length <= |bytes| && p.uid == bytes[..length])
  {
    if k > 0 {
      RoundsTrace(wakeups, serials, wi, si, uid, length, bytes, k - 1);
      var p := Rounds(wakeups, serials, length, bytes, Start(wi, si, uid), k - 1);
      var q := Round(wakeups, serials, length, bytes, p);
      if !p.found {
        assert q.wakeIndex - wi == (p.wakeIndex - wi) + 1;
        assert wi + (q.wakeIndex - wi) - 1 == p.wakeIndex;
        RoundIssues(wakeups, serials, length, bytes, p);
      }
    }
  }
}
