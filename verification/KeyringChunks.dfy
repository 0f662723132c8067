/** A secret split over several keyring entries with continuation markers, over whatever entries
    were there before (cli/src/auth.rs). */
module KeyringChunks {
  const CONTINUE_MARKER: string := "<MORE>"
  const WINDOWS_ENTRY_LIMIT: nat := 1024
  const KEYCHAIN_ENTRY_LIMIT: nat := 128 * 1024

  datatype ReadResult = NoCredential | ReadError | Text(text: string)

  type Passwords = map<nat, string>

  predicate Continues(chunk: string) {
    |chunk| >= |CONTINUE_MARKER| && chunk[|chunk| - |CONTINUE_MARKER|..] == CONTINUE_MARKER
  }

  function Unmarked(chunk: string): string
    requires Continues(chunk)
  {
    chunk[..|chunk| - |CONTINUE_MARKER|]
  }

  /** A prefix put before what the remaining entries read as. */
  function Before(prefix: string, rest: ReadResult): ReadResult {
    if rest.Text? then Text(prefix + rest.text) else rest
  }

  /** What reading from entry i on yields: chunks are joined up to the first without a marker. */
  function ReadFrom(pw: Passwords, unreadable: set<nat>, i: nat): ReadResult
    decreases pw.Keys
  {
    if i in unreadable then ReadError
    else if i !in pw then NoCredential
    else if Continues(pw[i]) then Before(Unmarked(pw[i]), ReadFrom(pw - {i}, unreadable, i + 1))
    else Text(pw[i])
  }

  /** The last entry that read looks at. */
  function LastConsulted(pw: Passwords, unreadable: set<nat>, i: nat): (last: nat)
    ensures last >= i
    decreases pw.Keys
  {
    if i !in unreadable && i in pw && Continues(pw[i]) then LastConsulted(pw - {i}, unreadable, i + 1) else i
  }

  /** The chunks a text is stored as. */
  function Parts(s: string, step: nat): seq<string>
    requires step > 0
    decreases |s|
  {
    if s == [] then []
    else if |s| >= step then [s[..step] + CONTINUE_MARKER] + Parts(s[step..], step)
    else [s]
  }

  /** The entries after the parts have been written over them one by one. */
  function Overlay(pw: Passwords, parts: seq<string>): Passwords {
    if parts == [] then pw
    else Overlay(pw, parts[..|parts| - 1])[|parts| - 1 := parts[|parts| - 1]]
  }

  /** What is left of the text after all the whole steps. */
  function LastChunk(s: string, step: nat): string
    requires step > 0
    decreases |s|
  {
    if |s| < step then s else LastChunk(s[step..], step)
  }

  // ---- Reading ----

  lemma {:induction false} ReadAgree(p: Passwords, q: Passwords, u: set<nat>, i: nat)
    requires forall k :: k >= i ==> (k in p <==> k in q) && (k in p ==> p[k] == q[k])
    ensures ReadFrom(p, u, i) == ReadFrom(q, u, i) && LastConsulted(p, u, i) == LastConsulted(q, u, i)
    decreases p.Keys
  {
    if i !in u && i in p && Continues(p[i]) {
      ReadAgree(p - {i}, q - {i}, u, i + 1);
    }
  }

  lemma ReadContinues(pw: Passwords, u: set<nat>, i: nat)
    requires i !in u && i in pw && Continues(pw[i])
    ensures ReadFrom(pw, u, i) == Before(Unmarked(pw[i]), ReadFrom(pw, u, i + 1))
    ensures LastConsulted(pw, u, i) == LastConsulted(pw, u, i + 1)
  {
    ReadAgree(pw - {i}, pw, u, i + 1);
  }

  /** A chunk is continued if and only if it ends in the marker, and its text is what precedes that. */
  lemma ContinuesIff(chunk: string)
    ensures Continues(chunk) <==> exists text: string :: chunk == text + "<MORE>"
    ensures Continues(chunk) ==> chunk == Unmarked(chunk) + "<MORE>"
  {
    if Continues(chunk) { assert chunk == Unmarked(chunk) + chunk[|chunk| - 6..]; }
    if text: string :| chunk == text + "<MORE>" { assert chunk[|chunk| - 6..] == "<MORE>"; }
  }

  /** The texts of the chunks i to n, the marker taken off all but the last. */
  function Joined(pw: Passwords, i: nat, n: nat): string
    requires i <= n && forall j :: i <= j <= n ==> j in pw
    decreases n - i
  {
    if i == n then pw[n]
    else (if Continues(pw[i]) then Unmarked(pw[i]) else pw[i]) + Joined(pw, i + 1, n)
  }

  /** All entries before n, from i on, are there, can be read and are continued. */
  ghost predicate ContinuedUpto(pw: Passwords, u: set<nat>, i: nat, n: nat) {
    forall j :: i <= j < n ==> j !in u && j in pw && Continues(pw[j])
  }

  /** Reading goes on as long as entries are there, can be read and are continued. It ends with an
      error if and only if the next one is refused, without a credential if and only if that one is
      missing; and otherwise with the joined chunks, that one being the last. */
  lemma {:induction false} ReadFromIs(pw: Passwords, u: set<nat>, i: nat)
    ensures var n := LastConsulted(pw, u, i);
      && ContinuedUpto(pw, u, i, n)
      && (n in u ==> ReadFrom(pw, u, i) == ReadError)
      && (n !in u && n !in pw ==> ReadFrom(pw, u, i) == NoCredential)
      && (n !in u && n in pw ==> !Continues(pw[n]) && ReadFrom(pw, u, i) == Text(Joined(pw, i, n)))
    decreases pw.Keys
  {
    if i !in u && i in pw && Continues(pw[i]) {
      var n := LastConsulted(pw, u, i);
      ReadContinues(pw, u, i);
      ReadAgree(pw - {i}, pw, u, i + 1);
      ReadFromIs(pw - {i}, u, i + 1);
      assert n >= i + 1 && n == LastConsulted(pw - {i}, u, i + 1);
      if n !in u && n in pw { JoinedAgree(pw - {i}, pw, i + 1, n); }
    }
  }

  lemma {:induction false} JoinedAgree(p: Passwords, q: Passwords, i: nat, n: nat)
    requires i <= n && forall j :: i <= j <= n ==> j in p && j in q && p[j] == q[j]
    ensures Joined(p, i, n) == Joined(q, i, n)
    decreases n - i
  {
    if i < n { JoinedAgree(p, q, i + 1, n); }
  }

  lemma BeforeBefore(a: string, b: string, r: ReadResult)
    ensures Before(a, Before(b, r)) == Before(a + b, r)
  {
    if r.Text? { assert a + (b + r.text) == a + b + r.text; }
  }

  // ---- Reading what was stored ----

  /** The text ends in a chunk that says by itself that it is the last. */
  predicate Terminated(s: string, step: nat)
    requires step > 0
  {
    LastChunk(s, step) != [] && !Continues(LastChunk(s, step))
  }

  /** The part of the text that is certain to come back. */
  function Kept(s: string, step: nat): string
    requires step > 0
  {
    if Continues(LastChunk(s, step)) && |s| >= |CONTINUE_MARKER| then s[..|s| - |CONTINUE_MARKER|] else s
  }

  lemma {:induction false} LastChunkIsSuffix(s: string, step: nat)
    requires step > 0
    ensures |LastChunk(s, step)| <= |s| && s[|s| - |LastChunk(s, step)|..] == LastChunk(s, step)
    ensures |LastChunk(s, step)| < step
    decreases |s|
  {
    if |s| >= step { LastChunkIsSuffix(s[step..], step); }
  }

  /** The entries from i on are readable and hold these parts. */
  predicate Holds(pw: Passwords, u: set<nat>, i: nat, parts: seq<string>) {
    forall k {:trigger parts[k]} :: 0 <= k < |parts| ==> HoldsAt(pw, u, i + k, parts[k])
  }

  predicate HoldsAt(pw: Passwords, u: set<nat>, i: nat, part: string) {
    i !in u && i in pw && pw[i] == part
  }

  /** What reading yields, and the last entry it looks at. */
  datatype Reading = Reading(result: ReadResult, last: nat)

  function ReadingFrom(pw: Passwords, u: set<nat>, i: nat): Reading {
    Reading(ReadFrom(pw, u, i), LastConsulted(pw, u, i))
  }

  /** What reading yields when the parts of s are there, up to entry n, and `beyond` is what
      reading from n on yields. */
  ghost predicate ReadsAs(r: Reading, s: string, step: nat, n: nat, beyond: Reading)
    requires step > 0
  {
    if Terminated(s, step) then r.result == Text(s) && r.last == n - 1
    else r == Reading(Before(Kept(s, step), beyond.result), beyond.last)
  }

  lemma ShortReadsBack(pw: Passwords, u: set<nat>, i: nat, s: string, step: nat)
    requires |s| < step && Holds(pw, u, i, Parts(s, step))
    ensures var n := i + |Parts(s, step)|;
            ReadsAs(ReadingFrom(pw, u, i), s, step, n, ReadingFrom(pw, u, n))
  {
    if s == [] {
      assert Before([], ReadFrom(pw, u, i)) == ReadFrom(pw, u, i);
    } else {
      assert Parts(s, step)[0] == s && HoldsAt(pw, u, i + 0, s);
      if Continues(s) { ReadContinues(pw, u, i); }
    }
  }

  lemma KeptStep(s: string, step: nat)
    requires 0 < step <= |s|
    ensures Terminated(s, step) == Terminated(s[step..], step)
    ensures s[..step] + Kept(s[step..], step) == Kept(s, step)
  {
    LastChunkIsSuffix(s[step..], step);
    assert s[..step] + s[step..] == s;
  }

  lemma FirstPartReads(pw: Passwords, u: set<nat>, i: nat, first: string)
    requires i !in u && i in pw && pw[i] == first + CONTINUE_MARKER
    ensures ReadingFrom(pw, u, i) == Reading(Before(first, ReadFrom(pw, u, i + 1)), LastConsulted(pw, u, i + 1))
  {
    assert Unmarked(pw[i]) == first;
    ReadContinues(pw, u, i);
  }

  lemma HoldsRest(pw: Passwords, u: set<nat>, i: nat, first: string, rest: seq<string>)
    requires Holds(pw, u, i, [first] + rest)
    ensures i !in u && i in pw && pw[i] == first && Holds(pw, u, i + 1, rest)
  {
    var parts := [first] + rest;
    assert parts[0] == first && HoldsAt(pw, u, i + 0, parts[0]);
    forall k {:trigger rest[k]} | 0 <= k < |rest| ensures HoldsAt(pw, u, i + 1 + k, rest[k]) {
      assert parts[k + 1] == rest[k] && HoldsAt(pw, u, i + (k + 1), parts[k + 1]);
    }
  }

  lemma ReadsAsStep(r: Reading, s: string, step: nat, n: nat, beyond: Reading)
    requires 0 < step <= |s| && ReadsAs(r, s[step..], step, n, beyond)
    ensures ReadsAs(Reading(Before(s[..step], r.result), r.last), s, step, n, beyond)
  {
    KeptStep(s, step);
    assert s[..step] + s[step..] == s;
    BeforeBefore(s[..step], Kept(s[step..], step), beyond.result);
  }

  lemma {:induction false} PartsReadBack(pw: Passwords, u: set<nat>, i: nat, s: string, step: nat)
    requires step > 0 && Holds(pw, u, i, Parts(s, step))
    ensures var n := i + |Parts(s, step)|;
            ReadsAs(ReadingFrom(pw, u, i), s, step, n, ReadingFrom(pw, u, n))
    decreases |s|
  {
    if |s| < step {
      ShortReadsBack(pw, u, i, s, step);
    } else {
      assert Parts(s, step) == [s[..step] + CONTINUE_MARKER] + Parts(s[step..], step);
      HoldsRest(pw, u, i, s[..step] + CONTINUE_MARKER, Parts(s[step..], step));
      FirstPartReads(pw, u, i, s[..step]);
      PartsReadBack(pw, u, i + 1, s[step..], step);
      var n := i + |Parts(s, step)|;
      ReadsAsStep(ReadingFrom(pw, u, i + 1), s, step, n, ReadingFrom(pw, u, n));
    }
  }

  lemma {:induction false} OverlayAt(pw: Passwords, parts: seq<string>, k: nat)
    ensures k in Overlay(pw, parts) <==> k in pw || k < |parts|
    ensures k < |parts| ==> Overlay(pw, parts)[k] == parts[k]
    ensures k >= |parts| && k in pw ==> Overlay(pw, parts)[k] == pw[k]
    decreases |parts|
  {
    if parts != [] { OverlayAt(pw, parts[..|parts| - 1], k); }
  }

  /** Reading after storing, whatever was in the keyring before: a terminated text comes back;
      any other comes back as its kept part followed by what the old entries beyond it read as. */
  lemma StoreThenRead(pw: Passwords, u: set<nat>, s: string, step: nat)
    requires step > 0 && forall k :: k in u ==> k >= |Parts(s, step)|
    ensures ReadFrom(Overlay(pw, Parts(s, step)), u, 0) ==
              if Terminated(s, step) then Text(s) else Before(Kept(s, step), ReadFrom(pw, u, |Parts(s, step)|))
    ensures LastConsulted(Overlay(pw, Parts(s, step)), u, 0) ==
              if Terminated(s, step) then |Parts(s, step)| - 1 else LastConsulted(pw, u, |Parts(s, step)|)
  {
    var n := |Parts(s, step)|;
    var q := Overlay(pw, Parts(s, step));
    forall k: nat ensures k in q <==> k in pw || k < n
                  ensures k < n ==> q[k] == Parts(s, step)[k]
                  ensures k >= n && k in pw ==> q[k] == pw[k]
    {
      OverlayAt(pw, Parts(s, step), k);
    }
    PartsReadBack(q, u, 0, s, step);
    ReadAgree(q, pw, u, n);
  }

  /** On this keyring the text comes back exactly if it is terminated, or the entry after its
      chunks reads as the part that was taken for a marker. */
  lemma ReadsBackIff(pw: Passwords, u: set<nat>, s: string, step: nat)
    requires step > 0 && forall k :: k in u ==> k >= |Parts(s, step)|
    ensures ReadFrom(Overlay(pw, Parts(s, step)), u, 0) == Text(s) <==>
            (Terminated(s, step) || ReadFrom(pw, u, |Parts(s, step)|) == Text(s[|Kept(s, step)|..]))
  {
    StoreThenRead(pw, u, s, step);
    var kept, beyond := Kept(s, step), ReadFrom(pw, u, |Parts(s, step)|);
    assert kept + s[|kept|..] == s;
    if !Terminated(s, step) && beyond.Text? {
      assert (kept + beyond.text)[|kept|..] == beyond.text;
    }
  }

  ghost predicate AlwaysReadsBack(s: string, step: nat)
    requires step > 0
  {
    forall pw: Passwords :: ReadFrom(Overlay(pw, Parts(s, step)), {}, 0) == Text(s)
  }

  lemma MultipleBelow(step: nat, d: int)
    requires 0 < step && 0 < step + step * d && step * d < step
    ensures d == 0
  {}

  lemma ModStep(n: nat, step: nat)
    requires 0 < step <= n
    ensures (n - step) % step == n % step
  {
    var d := n / step - (n - step) / step - 1;
    assert step * d == step * (n / step) - step * ((n - step) / step) - step;
    assert step * d == (n - step) % step - n % step;
    MultipleBelow(step, d);
  }

  lemma {:induction false} LastChunkLength(s: string, step: nat)
    requires step > 0
    ensures |LastChunk(s, step)| == |s| % step
    decreases |s|
  {
    if |s| >= step {
      LastChunkLength(s[step..], step);
      ModStep(|s|, step);
    }
  }

  /** Storing then reading returns the text on every keyring exactly if its length is no multiple
      of the step and its last chunk does not end in the marker. Where it fails, it fails even on
      an empty keyring. */
  lemma AlwaysReadsBackIff(s: string, step: nat)
    requires step > 0
    ensures AlwaysReadsBack(s, step) <==> |s| % step != 0 && !Continues(s[|s| - |s| % step..])
    ensures !AlwaysReadsBack(s, step) ==> ReadFrom(Overlay(map[], Parts(s, step)), {}, 0) == NoCredential
  {
    LastChunkLength(s, step);
    LastChunkIsSuffix(s, step);
    assert Terminated(s, step) <==> |s| % step != 0 && !Continues(s[|s| - |s| % step..]);
    forall pw: Passwords
      ensures Terminated(s, step) ==> ReadFrom(Overlay(pw, Parts(s, step)), {}, 0) == Text(s)
    {
      StoreThenRead(pw, {}, s, step);
    }
    StoreThenRead(map[], {}, s, step);
  }

  /** A positive multiple of the step fills its last entry with a continued chunk, so reading goes
      at least one entry beyond the ones written, and appends what it finds there. */
  lemma ExactMultipleReadsOn(pw: Passwords, s: string, step: nat)
    requires step > 0 && |s| > 0 && |s| % step == 0
    ensures LastConsulted(Overlay(pw, Parts(s, step)), {}, 0) >= |Parts(s, step)| > 0
    ensures ReadFrom(Overlay(pw, Parts(s, step)), {}, 0) == Before(s, ReadFrom(pw, {}, |Parts(s, step)|))
  {
    LastChunkLength(s, step);
    StoreThenRead(pw, {}, s, step);
  }

  /** Every entry fits, with room for the marker, and all but the last one are full. */
  lemma {:induction false} PartsFit(s: string, step: nat, k: nat)
    requires step > 0 && k < |Parts(s, step)|
    ensures |Parts(s, step)[k]| <= step + |CONTINUE_MARKER|
    ensures k + 1 < |Parts(s, step)| ==> |Parts(s, step)[k]| == step + |CONTINUE_MARKER|
    decreases |s|
  {
    if k > 0 { PartsFit(s[step..], step, k - 1); }
  }

  // ---- Clearing ----

  /** Deleting entries i to n - 1, stopping at the first that is not there or is refused. */
  function Cleared(pw: Passwords, refused: set<nat>, i: nat, n: nat): (Passwords, bool)
    requires i <= n
    decreases n - i
  {
    if i == n then (pw, true)
    else if i !in pw || i in refused then (pw, false)
    else Cleared(pw - {i}, refused, i + 1, n)
  }

  lemma {:induction false} ClearedWhat(pw: Passwords, refused: set<nat>, i: nat, n: nat)
    requires i <= n
    ensures var (q, ok) := Cleared(pw, refused, i, n);
      && (ok <==> forall j :: i <= j < n ==> j in pw && j !in refused)
      && (forall j :: j in q ==> j in pw && q[j] == pw[j])
      && (forall j :: j in pw && !(i <= j < n) ==> j in q)
      && (ok ==> forall j :: i <= j < n ==> j !in q)
    decreases n - i
  {
    if i < n && i in pw && i !in refused {
      ClearedWhat(pw - {i}, refused, i + 1, n);
      assert forall j :: i + 1 <= j < n ==> (j in pw - {i} <==> j in pw);
    }
  }

  lemma {:induction false} ConsultedArePresent(pw: Passwords, i: nat)
    ensures forall j :: i <= j < LastConsulted(pw, {}, i) ==> j in pw
    ensures ReadFrom(pw, {}, i).Text? <==> LastConsulted(pw, {}, i) in pw
    decreases pw.Keys
  {
    if i in pw && Continues(pw[i]) {
      ReadContinues(pw, {}, i);
      ReadAgree(pw - {i}, pw, {}, i + 1);
      ConsultedArePresent(pw - {i}, i + 1);
      assert LastConsulted(pw, {}, i) >= i + 1;
    }
  }

  /** A process that has no handles yet can clear the keyring exactly if it can read from it, and
      then nothing can be read any more. */
  lemma ClearsIffReadable(pw: Passwords)
    ensures var (q, ok) := Cleared(pw, {}, 0, LastConsulted(pw, {}, 0) + 1);
      && (ok <==> ReadFrom(pw, {}, 0).Text?)
      && (ok ==> ReadFrom(q, {}, 0) == NoCredential)
  {
    ConsultedArePresent(pw, 0);
    ClearedWhat(pw, {}, 0, LastConsulted(pw, {}, 0) + 1);
  }
}
