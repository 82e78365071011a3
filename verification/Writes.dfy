/** A file write made of steps that can each fail, or be the last one before a stop. */
module Writes {
  import opened Units
  import opened Base64

  type Name = Text

  /** Permission bits; setuid, setgid and sticky are `0o7000`. */
  type Mode = m: int | 0 <= m < 0x1000

  datatype Node = Regular(bytes: seq<Byte>, mode: Mode) | Folder

  type Files = map<Name, Node>

  datatype Encoding = Utf8 | Base64Text

  datatype Error = InvalidBase64 | TooLarge | CreateFailed | WriteFailed | RenameFailed

  datatype Outcome = Written(size: nat) | Threw(error: Error)

  /** The permission bits alone. */
  function Permissions(mode: Mode): Mode {
    mode % 0x200
  }

  /** What a file may do as its user or group is no permission, nor is the bit that keeps others from removing it. */
  lemma PermissionsAre(special: nat, permissions: nat)
    requires special < 8 && permissions < 512
    ensures Permissions(special * 512 + permissions) == permissions
  {
  }

  /** The folder a write happens in. `past` is every state it has been in, so every state a stop could leave it in. */
  class Disk {
    var files: Files
    /** A mode, past the umask. */
    const masked: Mode -> Mode
    ghost var past: seq<Files>
    /** A call failed that could have gone through. */
    ghost var troubled: bool

    ghost predicate Valid()
      reads this
    {
      past != [] && past[|past| - 1] == files
    }

    constructor (files: Files, masked: Mode -> Mode)
      ensures Valid() && this.files == files && this.masked == masked && past == [files] && !troubled
    {
      this.files := files;
      this.masked := masked;
      past, troubled := [files], false;
    }

    /** Whether a call fails that could go through. */
    method Fails() returns (fails: bool)
      modifies this`troubled
      ensures troubled == (old(troubled) || fails)
    {
      fails := *;
      troubled := troubled || fails;
    }

    method Become(next: Files)
      requires Valid()
      modifies this`files, this`past
      ensures Valid() && files == next && past == old(past) + [next]
    {
      files := next;
      past := past + [next];
    }

    /** The permission bits to keep, as `stat` finds them when it answers. */
    method Kept(target: Name) returns (kept: Option<Mode>, ghost answers: bool)
      modifies this`troubled
      ensures kept == if answers && target in files && files[target].Regular? then Some(Permissions(files[target].mode)) else None
      ensures troubled == (old(troubled) || !answers)
    {
      var fails := Fails();
      answers := !fails;
      if !fails && target in files && files[target].Regular? {
        kept := Some(Permissions(files[target].mode));
      } else {
        kept := None;
      }
    }

    /** `open` with `O_CREAT | O_EXCL`. */
    method Create(name: Name, mode: Mode) returns (ok: bool)
      requires Valid()
      modifies this
      ensures Valid()
      ensures ok ==> name !in old(files) && files == old(files)[name := Regular([], masked(mode))]
      ensures ok ==> past == old(past) + [files]
      ensures !ok ==> files == old(files) && past == old(past) && (troubled || name in files)
      ensures ok ==> troubled == old(troubled)
      ensures old(troubled) ==> troubled
    {
      var fails := Fails();
      ok := !fails && name !in files;
      if ok {
        Become(files[name := Regular([], masked(mode))]);
      }
    }

    /** Some bytes at a time, and perhaps not all of them. */
    method WriteFile(name: Name, bytes: seq<Byte>) returns (ok: bool)
      requires Valid() && name in files && files[name].Regular? && files[name].bytes == []
      modifies this
      ensures Valid() && |old(past)| <= |past| && past[..|old(past)|] == old(past)
      ensures exists n :: 0 <= n <= |bytes| && (ok ==> n == |bytes|)
                && files == old(files)[name := Regular(bytes[..n], old(files)[name].mode)]
      ensures forall k :: |old(past)| <= k < |past| ==> Holding(past[k], old(files), name, bytes, old(files)[name].mode, old(files)[name].mode)
      ensures troubled == (old(troubled) || !ok)
    {
      var written := 0;
      ghost var mode := files[name].mode;
      ok := true;
      while ok && written < |bytes|
        invariant Valid() && |old(past)| <= |past| && past[..|old(past)|] == old(past)
        invariant written <= |bytes|
        invariant files == old(files)[name := Regular(bytes[..written], mode)]
        invariant forall k :: |old(past)| <= k < |past| ==> Holding(past[k], old(files), name, bytes, mode, mode)
        invariant troubled == (old(troubled) || !ok)
        decreases ok, |bytes| - written
      {
        var fails := Fails();
        if fails {
          ok := false;
        } else {
          var more: nat :| written < more <= |bytes|;
          Become(files[name := Regular(bytes[..more], files[name].mode)]);
          written := more;
        }
      }
    }

    method Chmod(name: Name, mode: Mode) returns (ok: bool)
      requires Valid() && name in files && files[name].Regular?
      modifies this
      ensures Valid()
      ensures ok ==> files == old(files)[name := Regular(old(files)[name].bytes, mode)] && past == old(past) + [files]
      ensures !ok ==> files == old(files) && past == old(past)
      ensures troubled == (old(troubled) || !ok)
    {
      var fails := Fails();
      ok := !fails;
      if ok {
        Become(files[name := Regular(files[name].bytes, mode)]);
      }
    }

    /** Never onto a folder, and otherwise in one step. */
    method Rename(from: Name, onto: Name) returns (ok: bool)
      requires Valid() && from in files && from != onto
      modifies this
      ensures Valid()
      ensures ok ==> files == (old(files) - {from})[onto := old(files)[from]] && past == old(past) + [files]
      ensures ok ==> onto !in old(files) || old(files)[onto].Regular?
      ensures !ok ==> files == old(files) && past == old(past) && (troubled || (onto in files && files[onto].Folder?))
      ensures ok ==> troubled == old(troubled)
      ensures old(troubled) ==> troubled
    {
      var fails := Fails();
      ok := !fails && (onto !in files || files[onto].Regular?);
      if ok {
        Become((files - {from})[onto := files[from]]);
      }
    }

    method Remove(name: Name) returns (ok: bool)
      requires Valid()
      modifies this
      ensures Valid()
      ensures ok ==> files == old(files) - {name} && past == old(past) + [files]
      ensures !ok ==> files == old(files) && past == old(past)
      ensures troubled == (old(troubled) || !ok)
    {
      var fails := Fails();
      ok := !fails;
      if ok {
        Become(files - {name});
      }
    }

    method Close() returns (ok: bool)
      modifies this`troubled
      ensures troubled == (old(troubled) || !ok)
    {
      var fails := Fails();
      ok := !fails;
    }
  }

  /** `before` with, at `name`, some of `bytes` under the mode it was opened with, or all of them under the last one. */
  ghost predicate Holding(files: Files, before: Files, name: Name, bytes: seq<Byte>, first: Mode, last: Mode) {
    || (exists n :: 0 <= n <= |bytes| && files == before[name := Regular(bytes[..n], first)])
    || files == before[name := Regular(bytes, last)]
  }

  /** The mode a file is left with: the permissions it had, when `stat` answers, or what is new's past the umask. */
  function LastMode(masked: Mode -> Mode, before: Files, target: Name, answers: bool): Mode {
    if answers && target in before && before[target].Regular? then Permissions(before[target].mode) else masked(0x1B6)
  }

  /** And the one it is filled under: its owner's alone where there are permissions to keep. */
  function FirstMode(masked: Mode -> Mode, before: Files, target: Name, answers: bool): Mode {
    if answers && target in before && before[target].Regular? then masked(0x180) else masked(0x1B6)
  }

  /** The bytes `content` stands for; `utf8` encodes a text. */
  function ContentBytes(content: Text, encoding: Encoding, utf8: Text -> seq<Byte>): Option<seq<Byte>> {
    match encoding
    case Utf8 => Some(utf8(content))
    case Base64Text => DecodeContent(content)
  }

  /** Nothing but `temporary` differs from `before`, or nothing but `target`, which then holds all of `bytes`. */
  ghost predicate AllOrNothing(files: Files, before: Files, target: Name, temporary: Name, bytes: seq<Byte>, first: Mode, last: Mode) {
    || files == before
    || Holding(files, before, temporary, bytes, first, last)
    || files == before[target := Regular(bytes, last)]
  }

  /** Writes, sets the permissions to keep, and closes, whatever failed before. */
  method Fill(disk: Disk, temporary: Name, bytes: seq<Byte>, kept: Option<Mode>, ghost was: Files) returns (ok: bool)
    requires disk.Valid() && temporary !in was
    requires temporary in disk.files && disk.files[temporary].Regular?
    requires disk.files == was[temporary := Regular([], disk.files[temporary].mode)]
    modifies disk
    ensures disk.Valid() && |old(disk.past)| <= |disk.past| && disk.past[..|old(disk.past)|] == old(disk.past)
    ensures var first := old(disk.files)[temporary].mode; var last := if kept.Some? then kept.value else first;
      && (forall k :: |old(disk.past)| <= k < |disk.past| ==> Holding(disk.past[k], was, temporary, bytes, first, last))
      && Holding(disk.files, was, temporary, bytes, first, last)
      && (ok ==> disk.files == was[temporary := Regular(bytes, last)])
    ensures disk.troubled == (old(disk.troubled) || !ok)
  {
    ok := disk.WriteFile(temporary, bytes);
    assert bytes[..|bytes|] == bytes;
    if ok && kept.Some? {
      ok := disk.Chmod(temporary, kept.value);
    }
    var closed := disk.Close();
    ok := ok && closed;
  }

  /** Every state of `past` from `start` on has `target` whole. */
  ghost predicate Always(
    past: seq<Files>, start: nat, before: Files, target: Name, temporary: Name, bytes: seq<Byte>, first: Mode, last: Mode)
  {
    forall k :: start <= k < |past| ==> AllOrNothing(past[k], before, target, temporary, bytes, first, last)
  }

  /** Puts `bytes` in `target`, through a temporary file beside it. */
  method Put(disk: Disk, target: Name, temporary: Name, bytes: seq<Byte>)
    returns (failed: Option<Error>, ghost answers: bool, ghost cleaned: bool)
    requires disk.Valid() && target != temporary
    modifies disk
    ensures disk.Valid() && |old(disk.past)| <= |disk.past| && disk.past[..|old(disk.past)|] == old(disk.past)
    ensures var was := old(disk.files);
      Always(disk.past, |old(disk.past)|, was, target, temporary, bytes,
        FirstMode(disk.masked, was, target, answers), LastMode(disk.masked, was, target, answers))
    ensures failed.None? ==>
      var was := old(disk.files);
      && (target in was ==> was[target].Regular?) && temporary !in was
      && disk.files == was[target := Regular(bytes, LastMode(disk.masked, was, target, answers))]
    ensures failed != Some(InvalidBase64) && failed != Some(TooLarge)
    ensures failed.Some? ==> disk.troubled || temporary in old(disk.files) || (target in old(disk.files) && old(disk.files)[target].Folder?)
    ensures (!answers || !cleaned ==> disk.troubled) && (old(disk.troubled) ==> disk.troubled)
    ensures failed.Some? && cleaned ==> disk.files == old(disk.files)
    ensures failed.Some? && !cleaned ==>
      var was := old(disk.files);
      temporary !in was && Holding(disk.files, was, temporary, bytes,
        FirstMode(disk.masked, was, target, answers), LastMode(disk.masked, was, target, answers))
  {
    cleaned := true;
    ghost var was := disk.files;
    var kept;
    kept, answers := disk.Kept(target);
    var created := disk.Create(temporary, if kept.None? then 0x1B6 else 0x180);
    if !created {
      return Some(CreateFailed), answers, cleaned;
    }
    assert disk.files == was[temporary := Regular(bytes[..0], disk.files[temporary].mode)];
    var filled := Fill(disk, temporary, bytes, kept, was);
    var renamed := false;
    if filled {
      renamed := disk.Rename(temporary, target);
    }
    if renamed {
      DoneIsWhole(disk.files, was, target, temporary, bytes, disk.files[target].mode);
      return None, answers, cleaned;
    }
    cleaned := disk.Remove(temporary);
    assert cleaned ==> disk.files == was;
    return Some(if filled then RenameFailed else WriteFailed), answers, cleaned;
  }

  lemma DoneIsWhole(files: Files, before: Files, target: Name, temporary: Name, bytes: seq<Byte>, mode: Mode)
    requires temporary !in before && target != temporary
    requires files == (before[temporary := Regular(bytes, mode)] - {temporary})[target := Regular(bytes, mode)]
    ensures files == before[target := Regular(bytes, mode)]
    ensures AllOrNothing(files, before, target, temporary, bytes, mode, mode)
  {
    assert files == before[target := Regular(bytes, mode)];
  }

  /** Writes what `content` stands for, or nothing. */
  method Write(
    disk: Disk, target: Name, temporary: Name, content: Text, encoding: Encoding, utf8: Text -> seq<Byte>, limit: nat)
    returns (outcome: Outcome, ghost answers: bool, ghost cleaned: bool)
    requires disk.Valid() && target != temporary
    modifies disk
    ensures disk.Valid() && |old(disk.past)| <= |disk.past| && disk.past[..|old(disk.past)|] == old(disk.past)
    // At every step, where a stop may leave it: the target whole, old or new, and no other file changed.
    ensures var bytes := ContentBytes(content, encoding, utf8);
      if bytes.None? then disk.past == old(disk.past)
      else
        var was := old(disk.files);
        Always(disk.past, |old(disk.past)|, was, target, temporary, bytes.value,
          FirstMode(disk.masked, was, target, answers), LastMode(disk.masked, was, target, answers))
    // Done: exactly these bytes, with the permissions the file had.
    ensures outcome.Written? ==>
      var bytes := ContentBytes(content, encoding, utf8); var was := old(disk.files);
      && bytes.Some? && outcome.size == |bytes.value| <= limit
      && (target in was ==> was[target].Regular?) && temporary !in was
      && disk.files == was[target := Regular(bytes.value, LastMode(disk.masked, was, target, answers))]
    // It fails over the content alone, or over what is in the way, or because a call did.
    ensures outcome == Threw(InvalidBase64) <==> ContentBytes(content, encoding, utf8).None?
    ensures outcome == Threw(TooLarge) <==>
      ContentBytes(content, encoding, utf8).Some? && |ContentBytes(content, encoding, utf8).value| > limit
    ensures outcome.Threw? && outcome.error != InvalidBase64 && outcome.error != TooLarge ==>
      disk.troubled || temporary in old(disk.files) || (target in old(disk.files) && old(disk.files)[target].Folder?)
    ensures (!answers || !cleaned ==> disk.troubled) && (old(disk.troubled) ==> disk.troubled)
    // Failed: nothing changed, or only a temporary that could not be removed is left.
    ensures outcome.Threw? && cleaned ==> disk.files == old(disk.files)
    ensures outcome.Threw? && !cleaned ==>
      var bytes := ContentBytes(content, encoding, utf8); var was := old(disk.files);
      bytes.Some? && temporary !in was && Holding(disk.files, was, temporary, bytes.value,
        FirstMode(disk.masked, was, target, answers), LastMode(disk.masked, was, target, answers))
  {
    hide Holding, AllOrNothing;
    answers, cleaned := true, true;
    var decoded := ContentBytes(content, encoding, utf8);
    if decoded.None? {
      outcome := Threw(InvalidBase64);
    } else if |decoded.value| > limit {
      outcome := Threw(TooLarge);
    } else {
      var failed;
      failed, answers, cleaned := Put(disk, target, temporary, decoded.value);
      outcome := if failed.Some? then Threw(failed.value) else Written(|decoded.value|);
    }
  }
}
