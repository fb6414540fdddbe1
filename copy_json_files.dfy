/** Model of frontend/messages/tools/copy_json_files.py: snapshot every
    `xx.json` of a directory to `copy_xx.json`, or restore `xx.json` from
    `copy_xx.json`. Files are byte strings that are copied, never parsed. */
module CopyJsonFiles {
  import opened Text

  type Bytes = seq<bv8>

  const ModeCopy := "copy"
  const ModeRestore := "restore"

  /** A base file name: two ASCII letters and the extension `.json`, the
      extension in any case. */
  predicate IsBaseName(f: string) {
    |f| == 7 && IsTwoLetters(f[..2]) && EqualsIgnoreCase(f[2..], ".json")
  }

  /** A copy file name: the prefix `copy_`, two ASCII letters and the
      extension `.json`, prefix and extension in any case. */
  predicate IsCopyName(f: string) {
    |f| == 12 && EqualsIgnoreCase(f[..5], "copy_") && IsTwoLetters(f[5..7]) && EqualsIgnoreCase(f[7..], ".json")
  }

  /** Where one directory entry is copied to, if anywhere: in copy mode a base
      file gets the prefix `copy_` (its name and extension keep their case);
      in restore mode a copy file gives its two captured letters plus a
      lower-case `.json`. */
  function Destination(mode: string, f: string): (dest: Option<string>)
    ensures dest.Some? ==> dest.value != f
    ensures dest.Some? && mode == ModeCopy ==> IsBaseName(f) && IsCopyName(dest.value) && dest.value == "copy_" + f
    ensures dest.Some? && mode == ModeRestore ==>
      IsCopyName(f) && IsBaseName(dest.value) && dest.value == f[5..7] + ".json"
    ensures dest.None? <==>
      !((mode == ModeCopy && IsBaseName(f)) || (mode == ModeRestore && IsCopyName(f)))
  {
    var dest := if mode == ModeCopy && IsBaseName(f) then Some("copy_" + f) else None;
    if mode == ModeRestore && IsCopyName(f) then Some(f[5..7] + ".json") else dest
  }

  /** A name is a base name exactly when `copy_` in front of it makes a
      copy name, and dropping the prefix of a copy name leaves a base name:
      the two patterns describe the same files, with and without the prefix. */
  lemma CopyNamesArePrefixedBaseNames(f: string)
    ensures IsBaseName(f) <==> IsCopyName("copy_" + f)
    ensures IsCopyName(f) ==> IsBaseName(f[5..])
  {
    var c := "copy_" + f;
    assert c[..5] == "copy_";
    assert forall i :: 0 <= i < 5 ==> Lower("copy_")[i] == "copy_"[i];
    if |f| == 7 {
      assert c[5..7] == f[..2] && c[7..] == f[2..];
    }
    if IsCopyName(f) {
      var b := f[5..];
      assert b[..2] == f[5..7] && b[2..] == f[7..];
    }
  }

  /** A destination is never itself a source in the same mode, so no file is
      overwritten before it is read, whatever order the directory lists. */
  lemma DestinationIsNotASource(mode: string, f: string)
    requires Destination(mode, f).Some?
    ensures Destination(mode, Destination(mode, f).value).None?
  {
  }

  /** Copying and then restoring gives back the original name when its
      extension is the lower-case `.json` that restore writes. */
  lemma RestoreUndoesCopy(f: string)
    requires IsBaseName(f) && f[2..] == ".json"
    ensures Destination(ModeCopy, f).Some?
    ensures Destination(ModeRestore, Destination(ModeCopy, f).value) == Some(f)
  {
    assert ("copy_" + f)[5..7] == f[..2];
    assert f[..2] + f[2..] == f;
  }

  /** Restoring and then copying gives back the copy's name when it is
      spelled in lower case around the letters. */
  lemma CopyUndoesRestore(f: string)
    requires IsCopyName(f) && f[..5] == "copy_" && f[7..] == ".json"
    ensures Destination(ModeRestore, f).Some?
    ensures Destination(ModeCopy, Destination(ModeRestore, f).value) == Some(f)
  {
    assert "copy_" + (f[5..7] + ".json") == f;
  }

  /** An upper-case extension does not survive the round trip. */
  lemma RoundTripLosesExtensionCase()
    ensures Destination(ModeCopy, "ab.JSON") == Some("copy_ab.JSON")
    ensures Destination(ModeRestore, "copy_ab.JSON") == Some("ab.json")
  {
    var upper := "ab.JSON"[2..];
    assert forall i :: 0 <= i < 5 ==> Lower(upper)[i] == ".json"[i];
    assert IsBaseName("ab.JSON");
    var copyUpper := "copy_ab.JSON";
    assert copyUpper[7..] == upper;
    assert forall i :: 0 <= i < 5 ==> Lower(copyUpper[..5])[i] == "copy_"[i];
    assert IsCopyName(copyUpper);
    assert "copy_" + "ab.JSON" == copyUpper;
    assert ModeCopy != ModeRestore;
    assert copyUpper[5..7] + ".json" == "ab.json";
  }

  /** In copy mode distinct sources have distinct destinations. */
  lemma CopyDestinationsDistinct(f: string, g: string)
    requires Destination(ModeCopy, f).Some? && Destination(ModeCopy, f) == Destination(ModeCopy, g)
    ensures f == g
  {
    assert f == ("copy_" + f)[5..];
    assert g == ("copy_" + g)[5..];
  }

  /** The entries of `names` that are copied to `d`. */
  ghost function SourcesOf(names: set<string>, mode: string, d: string): set<string> {
    set f | f in names && Destination(mode, f) == Some(d)
  }

  /** Every name of `after` either received the content of one of its
      sources among `done`, or has none and kept its own content. */
  ghost predicate CopiedFrom(files: map<string, Bytes>, after: map<string, Bytes>, done: set<string>, mode: string) {
    forall d :: d in after ==>
      if SourcesOf(done, mode, d) != {} then
        exists f :: f in SourcesOf(done, mode, d) && f in files && after[d] == files[f]
      else
        d in files && after[d] == files[d]
  }

  /** The names that the entries of `names` are copied to. */
  ghost function DestinationsOf(names: set<string>, mode: string): set<string> {
    set f | f in names && Destination(mode, f).Some? :: Destination(mode, f).value
  }

  /** `copy_json_files(directory, mode)`: `files` is the directory before the
      call, `after` the directory when it returns. Where two copy files
      restore to the same name (they differ only in the case of `copy_` or
      `.json`), the one listed last wins; the model leaves that order open. */
  method CopyFiles(files: map<string, Bytes>, mode: string) returns (after: map<string, Bytes>)
    ensures after.Keys == files.Keys + DestinationsOf(files.Keys, mode)
    ensures CopiedFrom(files, after, files.Keys, mode)
  {
    after := files;
    var remaining := files.Keys;
    ghost var done: set<string> := {};
    while remaining != {}
      invariant remaining + done == files.Keys && remaining !! done
      invariant after.Keys == files.Keys + DestinationsOf(done, mode)
      invariant CopiedFrom(files, after, done, mode)
      decreases remaining
    {
      var f :| f in remaining;
      var dest := Destination(mode, f);
      ghost var before := after;
      if dest.Some? {
        after := after[dest.value := after[f]];
      }
      LoopStep(files, before, after, done, mode, f);
      remaining := remaining - {f};
      done := done + {f};
    }
  }

  /** One turn of the loop of `CopyFiles` keeps its invariant. */
  lemma LoopStep(files: map<string, Bytes>, before: map<string, Bytes>, after: map<string, Bytes>,
                 done: set<string>, mode: string, f: string)
    requires f in files && f !in done
    requires before.Keys == files.Keys + DestinationsOf(done, mode)
    requires CopiedFrom(files, before, done, mode)
    requires after == if Destination(mode, f).Some? then before[Destination(mode, f).value := before[f]] else before
    ensures after.Keys == files.Keys + DestinationsOf(done + {f}, mode)
    ensures CopiedFrom(files, after, done + {f}, mode)
  {
    DestinationsStep(done, mode, f);
    var dest := Destination(mode, f);
    if dest.Some? {
      CopyEntryStep(files, before, done, mode, f, dest.value);
    } else {
      SkipStep(files, after, done, mode, f);
    }
  }

  /** Copying one source to its destination keeps `CopiedFrom`. */
  lemma CopyEntryStep(files: map<string, Bytes>, before: map<string, Bytes>, done: set<string>,
                      mode: string, f: string, d: string)
    requires f in files && f in before && Destination(mode, f) == Some(d)
    requires CopiedFrom(files, before, done, mode)
    ensures CopiedFrom(files, before[d := before[f]], done + {f}, mode)
  {
    SourcelessKeepsContent(files, before, done, mode, f);
    var after := before[d := before[f]];
    assert after - {d} == before - {d};
    CopiedFromWithout(files, before, done, mode, d);
    CopyStep(files, after, done, mode, f);
  }

  /** Dropping a name keeps `CopiedFrom` for the others. */
  lemma CopiedFromWithout(files: map<string, Bytes>, m: map<string, Bytes>, done: set<string>, mode: string, d: string)
    requires CopiedFrom(files, m, done, mode)
    ensures CopiedFrom(files, m - {d}, done, mode)
  {
  }

  /** In copy mode every base file's snapshot holds exactly its content. */
  lemma CopyModeSnapshots(files: map<string, Bytes>, after: map<string, Bytes>)
    requires after.Keys == files.Keys + DestinationsOf(files.Keys, ModeCopy)
    requires CopiedFrom(files, after, files.Keys, ModeCopy)
    ensures forall f :: f in files && IsBaseName(f) ==> "copy_" + f in after && after["copy_" + f] == files[f]
  {
    forall f | f in files && IsBaseName(f)
      ensures "copy_" + f in after && after["copy_" + f] == files[f]
    {
      var d := Destination(ModeCopy, f).value;
      assert d in DestinationsOf(files.Keys, ModeCopy);
      assert f in SourcesOf(files.Keys, ModeCopy, d);
      var g :| g in SourcesOf(files.Keys, ModeCopy, d) && g in files && after[d] == files[g];
      CopyDestinationsDistinct(f, g);
    }
  }

  lemma DestinationsStep(done: set<string>, mode: string, f: string)
    ensures DestinationsOf(done + {f}, mode) ==
      DestinationsOf(done, mode) + (if Destination(mode, f).Some? then {Destination(mode, f).value} else {})
  {
  }

  lemma SkipStep(files: map<string, Bytes>, after: map<string, Bytes>, done: set<string>, mode: string, f: string)
    requires Destination(mode, f).None?
    requires CopiedFrom(files, after, done, mode)
    ensures CopiedFrom(files, after, done + {f}, mode)
  {
    forall e | e in after ensures SourcesOf(done + {f}, mode, e) == SourcesOf(done, mode, e) {
    }
  }

  /** A source that is not anyone's destination still holds its own content. */
  lemma SourcelessKeepsContent(files: map<string, Bytes>, after: map<string, Bytes>, done: set<string>, mode: string, f: string)
    requires CopiedFrom(files, after, done, mode) && f in files && f in after
    requires Destination(mode, f).Some?
    ensures after[f] == files[f]
  {
    forall g | g in SourcesOf(done, mode, f) ensures false {
      DestinationIsNotASource(mode, g);
    }
  }

  lemma CopyStep(files: map<string, Bytes>, after: map<string, Bytes>, done: set<string>, mode: string, f: string)
    requires f in files && Destination(mode, f).Some?
    requires var d := Destination(mode, f).value;
      d in after && after[d] == files[f]
      && CopiedFrom(files, after - {d}, done, mode)
    ensures CopiedFrom(files, after, done + {f}, mode)
  {
    var d := Destination(mode, f).value;
    forall e | e in after
      ensures if SourcesOf(done + {f}, mode, e) != {} then
          exists g :: g in SourcesOf(done + {f}, mode, e) && g in files && after[e] == files[g]
        else
          e in files && after[e] == files[e]
    {
      if e == d {
        assert f in SourcesOf(done + {f}, mode, e);
      } else {
        assert SourcesOf(done + {f}, mode, e) == SourcesOf(done, mode, e);
        assert e in after - {d};
      }
    }
  }

  datatype CopyCommand =
    | Usage
    | Run(mode: string, directory: Option<string>)   // None: the nearest `messages` directory

  /** The command line check of the script; `argv[0]` is the script name. A
      third argument is the directory; with more arguments than that the
      default directory is used. */
  function ParseCommand(argv: seq<string>): (cmd: CopyCommand)
    ensures cmd.Run? <==> |argv| >= 2 && (argv[1] == "--" + ModeCopy || argv[1] == "--" + ModeRestore)
    ensures cmd.Run? ==> (cmd.mode == ModeCopy || cmd.mode == ModeRestore) && argv[1] == "--" + cmd.mode
    ensures cmd.Run? ==> (cmd.directory.Some? <==> |argv| == 3)
    ensures cmd.Run? && |argv| == 3 ==> cmd.directory == Some(argv[2])
  {
    if |argv| < 2 || (argv[1] != "--" + ModeCopy && argv[1] != "--" + ModeRestore) then Usage
    else Run(argv[1][2..], if |argv| == 3 then Some(argv[2]) else None)
  }
}
