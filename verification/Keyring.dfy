/** The chunked keyring store as it updates the keyring in place. */
module Keyring {
  import opened Collections
  import opened KeyringChunks

  /** Which of the first n entries is the first to be in `bad`; n if none is. */
  function FirstIn(bad: set<nat>, n: nat): (k: nat)
    ensures k <= n && (k < n ==> k in bad) && forall j :: 0 <= j < k ==> j !in bad
  {
    if n == 0 then 0
    else
      var k := FirstIn(bad, n - 1);
      if k < n - 1 || n - 1 in bad then k else n
  }

  /** Where the loop over a text stands after k steps. */
  function Offset(k: nat, step: nat): nat {
    if k == 0 then 0 else Offset(k - 1, step) + step
  }

  lemma {:induction false} OffsetIsMultiple(k: nat, step: nat)
    ensures Offset(k, step) == k * step
  {
    if k > 0 {
      OffsetIsMultiple(k - 1, step);
      assert k * step == (k - 1) * step + step;
    }
  }

  /** The number of the entry for the part at offset i. */
  method EntryNumber(i: nat, step: nat, ghost k: nat) returns (n: nat)
    requires step > 0 && i == Offset(k, step)
    ensures n == k
  {
    OffsetIsMultiple(k, step);
    MultipleBelow(step, k * step / step - k);
    n := i / step;
  }

  function PartAt(s: string, step: nat, i: nat): string
    requires i < |s|
  {
    if i + step <= |s| then s[i..i + step] + CONTINUE_MARKER else s[i..]
  }

  /** Part k is what stands at its offset, and the offsets end where the parts do. */
  lemma {:induction false} PartIsAt(s: string, step: nat, k: nat)
    requires step > 0 && k <= |Parts(s, step)|
    ensures Offset(k, step) < |s| <==> k < |Parts(s, step)|
    ensures k < |Parts(s, step)| ==> Parts(s, step)[k] == PartAt(s, step, Offset(k, step))
  {
    if k > 0 {
      if |s| >= step {
        PartIsAt(s[step..], step, k - 1);
        var i := Offset(k - 1, step);
        if i < |s[step..]| {
          assert s[step..][i..] == s[step + i..];
          assert i + step <= |s[step..]| ==> s[step..][i..i + step] == s[step + i..step + i + step];
        }
      }
    } else if |s| >= step > 0 && s != [] {
      assert s[0..step] == s[..step];
    } else {
      assert s[0..] == s;
    }
  }

  lemma OverlaySnoc(pw: Passwords, done: seq<string>, part: string)
    ensures Overlay(pw, done + [part]) == Overlay(pw, done)[|done| := part]
  {
    assert (done + [part])[..|done|] == done;
  }

  ghost predicate NoneBelow(bad: set<nat>, k: nat) {
    forall j :: 0 <= j < k ==> j !in bad
  }

  lemma FirstInIs(bad: set<nat>, n: nat, k: nat)
    requires k <= n && (k < n ==> k in bad) && NoneBelow(bad, k)
    ensures FirstIn(bad, n) == k
  {
    var f := FirstIn(bad, n);
  }

  class KeyringStorage {
    const limit: nat
    const unreadable: set<nat>   // entries the keyring refuses to read, other than for being missing
    const unwritable: set<nat>   // entries the keyring refuses to write or delete
    var entries: seq<nat>        // handles made so far, by the number in their name
    var passwords: Passwords

    ghost predicate Valid()
      reads this
    {
      limit > |CONTINUE_MARKER| && forall k :: 0 <= k < |entries| ==> entries[k] == k
    }

    constructor (windows: bool, passwords: Passwords, unreadable: set<nat>, unwritable: set<nat>)
      ensures Valid() && this.passwords == passwords && entries == []
      ensures this.unreadable == unreadable && this.unwritable == unwritable
      ensures limit == if windows then 1024 else 131072
    {
      limit := if windows then WINDOWS_ENTRY_LIMIT else KEYCHAIN_ENTRY_LIMIT;
      this.passwords, this.unreadable, this.unwritable, entries := passwords, unreadable, unwritable, [];
    }

    method GetNextEntry(i: nat) returns (entry: nat)
      requires Valid() && i <= |entries|
      modifies `entries
      ensures Valid() && entry == i
      ensures |entries| == Max(|old(entries)|, i + 1)
    {
      if i == |entries| { entries := entries + [i]; }
      entry := entries[i];
    }

    /** Joins the chunks up to the first without a marker; handles are made for every entry looked
        at, one of which may not exist. */
    method Read() returns (r: ReadResult)
      requires Valid()
      modifies `entries
      ensures Valid() && r == ReadFrom(passwords, unreadable, 0)
      ensures |entries| == Max(|old(entries)|, LastConsulted(passwords, unreadable, 0) + 1)
    {
      var str, i := "", 0;
      ghost var seen: set<nat> := {};
      while true
        invariant Valid() && 0 <= i && (|entries| == |old(entries)| || |entries| == i) && i <= |entries|
        invariant |entries| >= |old(entries)|
        invariant ReadFrom(passwords, unreadable, 0) == Before(str, ReadFrom(passwords, unreadable, i))
        invariant LastConsulted(passwords, unreadable, 0) == LastConsulted(passwords, unreadable, i)
        invariant seen <= passwords.Keys && forall k :: k in seen ==> k < i
        decreases passwords.Keys - seen
      {
        var entry := GetNextEntry(i);
        if entry in unreadable { return ReadError; }
        if entry !in passwords { return NoCredential; }
        var chunk := passwords[entry];
        if !Continues(chunk) { return Text(str + chunk); }
        ReadContinues(passwords, unreadable, i);
        BeforeBefore(str, Unmarked(chunk), ReadFrom(passwords, unreadable, i + 1));
        str, i := str + Unmarked(chunk), i + 1;
        seen := seen + {entry};
      }
    }

    method SetPassword(entry: nat, value: string) returns (ok: bool)
      modifies `passwords
      ensures ok == (entry !in unwritable)
      ensures passwords == if ok then old(passwords)[entry := value] else old(passwords)
    {
      ok := entry !in unwritable;
      if ok { passwords := passwords[entry := value]; }
    }

    /** One part, at offset i; `done` are the parts before it. */
    method StorePart(part: string, i: nat, step: nat, ghost before: Passwords, ghost done: seq<string>)
      returns (ok: bool)
      requires Valid() && step > 0 && i == Offset(|done|, step) && |done| <= |entries|
      requires passwords == Overlay(before, done)
      modifies `entries, `passwords
      ensures Valid() && |entries| == Max(|old(entries)|, |done| + 1)
      ensures ok == (|done| !in unwritable)
      ensures passwords == if ok then Overlay(before, done + [part]) else Overlay(before, done)
    {
      var n := EntryNumber(i, step, |done|);
      var entry := GetNextEntry(n);
      OverlaySnoc(before, done, part);
      ok := SetPassword(entry, part);
    }

    /** Writes the parts over the first entries, stopping at the first that is refused. */
    method Store(sealed: string) returns (ok: bool)
      requires Valid()
      modifies `entries, `passwords
      ensures Valid()
      ensures var parts := Parts(sealed, limit - |CONTINUE_MARKER|);
              var k := FirstIn(unwritable, |parts|);
              && ok == (k == |parts|) && passwords == Overlay(old(passwords), parts[..k])
              && |entries| == Max(|old(entries)|, if ok then k else k + 1)
    {
      var step := limit - |CONTINUE_MARKER|;
      ghost var parts := Parts(sealed, step);
      ghost var k := 0;
      var i := 0;
      while i < |sealed|
        invariant Valid() && |entries| == Max(|old(entries)|, k)
        invariant k <= |parts| && i == Offset(k, step)
        invariant passwords == Overlay(old(passwords), parts[..k]) && NoneBelow(unwritable, k)
        decreases |sealed| - i
      {
        PartIsAt(sealed, step, k);
        ok := StorePart(PartAt(sealed, step, i), i, step, old(passwords), parts[..k]);
        if !ok {
          FirstInIs(unwritable, |parts|, k);
          return;
        }
        assert parts[..k + 1] == parts[..k] + [parts[k]];
        i, k := i + step, k + 1;
      }
      PartIsAt(sealed, step, k);
      FirstInIs(unwritable, |parts|, k);
      ok := true;
    }

    /** Reads so that every part has a handle, then deletes them all, stopping at the first entry
        that is not there or is refused. */
    method Clear() returns (ok: bool)
      requires Valid()
      modifies `entries, `passwords
      ensures Valid()
      ensures var handles := Max(|old(entries)|, LastConsulted(old(passwords), unreadable, 0) + 1);
              && (passwords, ok) == Cleared(old(passwords), unwritable, 0, handles)
              && |entries| == if ok then 0 else handles
    {
      var _ := Read();
      ghost var handles := |entries|;
      var i := 0;
      while i < |entries|
        invariant Valid() && 0 <= i <= |entries| == handles
        invariant Cleared(passwords, unwritable, i, handles) == Cleared(old(passwords), unwritable, 0, handles)
      {
        if entries[i] !in passwords || entries[i] in unwritable { return false; }
        passwords := passwords - {entries[i]};
        i := i + 1;
      }
      entries := [];
      ok := true;
    }
  }
}
