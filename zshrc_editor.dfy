/** The alias editor of lib/zshrcEditor.ts: `addAlias`, `removeAlias` and
    `listAliases` acting on the files `~/.zshrc` and `~/.zshrc.bak`.

    Each operation is specified twice. A pure step function (`AddStep`,
    `RemoveStep`) gives the outcome and the two files after the call from the
    files before it and from which of the file-system calls fail; the methods
    of `AliasStore` run the source's steps in the source's order on mutable
    fields and are proved to agree with the step functions. */
module ZshrcEditor {
  import opened Text
  import opened Constants
  import opened Errors
  import opened AliasText

  const EmptyInputMessage := "alias와 command는 비어 있을 수 없습니다."
  const InvalidAliasMessage := "alias는 영문자, 숫자, 언더스코어, 한글, 마침표만 포함할 수 있습니다."
  const ReadErrorMessage := "파일을 읽는 중 오류가 발생했습니다."
  const BackupErrorMessage := "백업을 저장하는 중 오류가 발생했습니다."
  const WriteErrorMessage := "파일을 저장하는 중 오류가 발생했습니다."

  /** Which file-system calls throw: `readFileSync` of `~/.zshrc`,
      `copyFileSync` to `~/.zshrc.bak`, `writeFileSync` of `~/.zshrc`. */
  datatype Faults = Faults(readFails: bool, copyFails: bool, writeFails: bool)

  /** The outcome of a call and the contents of `~/.zshrc` and of `~/.zshrc.bak`
      (`None` while there is no backup file) after it. */
  datatype Step = Step(outcome: Outcome, rc: string, backup: Option<string>)

  predicate FailsWith(o: Outcome, code: Code) {
    o.Fail? && o.error.code == code
  }

  /** A name `removeAlias` can put into its pattern unescaped and still match
      only itself, on one line. */
  predicate LiteralName(name: string) {
    '\n' !in name && forall k :: 0 <= k < |name| ==> !IsRegexMeta(name[k])
  }

  /** The pattern `addAlias` builds for `name` matches `name` literally. The
      escaped name is the replacement text of `ALIAS_PATTERN.replace('{alias}', …)`,
      so a `$` that the escaping leaves in front of `&`, `` ` `` or `'` would insert
      part of the template instead of itself. */
  predicate EscapesLiterally(name: string) {
    forall k :: 0 <= k < |name| - 1 && name[k] == '$' ==> !IsSubstitutionMark(name[k + 1])
  }

  predicate IsSubstitutionMark(c: char) {
    c == '&' || c == '`' || c == '\''
  }

  // ---------------------------------------------------------------------------
  // addAlias

  /** `addAlias(name, command)`: reject an empty argument, then (as written) a
      name made only of allowed characters; read the file; back up the file as
      it was; write the updated text. A failed write leaves `~/.zshrc` as it was.
      The text written is `Upsert` when the line-level reading of the pattern is
      exact: a name it matches literally and without `\n`, and a `LineLocal` file. */
  function AddStep(rc: string, backup: Option<string>, f: Faults, name: string, command: string): (s: Step)
    ensures FailsWith(s.outcome, InvalidInput) <==> name == "" || command == ""
    ensures FailsWith(s.outcome, InvalidAlias) <==> name != "" && command != "" && !HasDisallowedChar(name)
    ensures FailsWith(s.outcome, FileReadError)
            <==> name != "" && command != "" && HasDisallowedChar(name) && f.readFails
    ensures FailsWith(s.outcome, BackupError)
            <==> name != "" && command != "" && HasDisallowedChar(name) && !f.readFails && f.copyFails
    ensures FailsWith(s.outcome, FileWriteError)
            <==> name != "" && command != "" && HasDisallowedChar(name) && !f.readFails && !f.copyFails && f.writeFails
    ensures s.outcome.Fail? ==> s.rc == rc
    ensures s.outcome.Fail? && s.outcome.error.code != FileWriteError ==> s.backup == backup
    ensures FailsWith(s.outcome, FileWriteError) ==> s.backup == Some(rc)
    ensures s.rc != rc ==> s.backup == Some(rc)
    ensures s.outcome == Ok ==> s.backup == Some(rc)
    ensures s.outcome == Ok && EscapesLiterally(name) && '\n' !in name && LineLocal(rc)
            ==> s.rc == Upsert(rc, name, command)
  {
    if name == "" || command == "" then Step(Fail(AppError(EmptyInputMessage, InvalidInput)), rc, backup)
    else if !HasDisallowedChar(name) then Step(Fail(AppError(InvalidAliasMessage, InvalidAlias)), rc, backup)
    else if f.readFails then Step(Fail(AppError(ReadErrorMessage, FileReadError)), rc, backup)
    else if f.copyFails then Step(Fail(AppError(BackupErrorMessage, BackupError)), rc, backup)
    else if f.writeFails then Step(Fail(AppError(WriteErrorMessage, FileWriteError)), rc, Some(rc))
    else Step(Ok, Upsert(rc, name, command), Some(rc))
  }

  /** A name made only of allowed characters never reaches the file: the gate
      as written rejects exactly the names it means to accept. */
  lemma AddRejectsPlainName(rc: string, backup: Option<string>, f: Faults, command: string)
    requires command != ""
    ensures AddStep(rc, backup, f, "gs", command).outcome
            == Fail(AppError(InvalidAliasMessage, InvalidAlias))
  {
    assert !HasDisallowedChar("gs") by {
      forall k | 0 <= k < 2
        ensures IsAliasChar("gs"[k])
      {
      }
    }
  }

  /** A name with a disallowed character passes the gate. */
  lemma AddAcceptsSpacedName(rc: string, command: string)
    requires command != "" && LineLocal(rc)
    ensures AddStep(rc, None, Faults(false, false, false), "g s", command)
            == Step(Ok, Upsert(rc, "g s", command), Some(rc))
  {
    assert !IsAliasChar("g s"[1]);
  }

  /** Adding the same alias twice, both times successfully, leaves `~/.zshrc` as
      one addition did, and the second backup holds that text. */
  lemma AddTwice(rc: string, backup: Option<string>, f: Faults, name: string, command: string)
    requires LineLocal(rc) && PlainArguments(name, command)
    requires AddStep(rc, backup, f, name, command).outcome == Ok
    ensures var once := AddStep(rc, backup, f, name, command);
      var twice := AddStep(once.rc, once.backup, f, name, command);
      twice == Step(Ok, once.rc, Some(once.rc))
  {
    UpsertKeepsLineLocal(rc, name, command);
    UpsertIdempotent(rc, name, command);
  }

  /** After a successful `addAlias`, `listAliases` shows the alias. */
  lemma AddThenList(rc: string, backup: Option<string>, f: Faults, name: string, command: string)
    requires LineLocal(rc) && PlainArguments(name, command) && '=' !in name
    requires AddStep(rc, backup, f, name, command).outcome == Ok
    ensures Format(Alias(Trim(name), Trim(command))) in Listing(AddStep(rc, backup, f, name, command).rc)
  {
    UpsertIsListed(rc, name, command);
  }

  // ---------------------------------------------------------------------------
  // removeAlias

  /** `removeAlias(name)`: read the file; do nothing when no line defines
      `name`; otherwise back up the file as it was and write it with the first
      definition blanked. Whether a line defines `name` is the line-level reading,
      exact for a `LineLocal` file. */
  function RemoveStep(rc: string, backup: Option<string>, f: Faults, name: string): (s: Step)
    requires LiteralName(name)
    ensures FailsWith(s.outcome, FileReadError) <==> f.readFails
    ensures LineLocal(rc) ==> var defined := FirstDefinition(Lines(rc), name) < |Lines(rc)|;
      && (FailsWith(s.outcome, BackupError) <==> !f.readFails && defined && f.copyFails)
      && (FailsWith(s.outcome, FileWriteError) <==> !f.readFails && defined && !f.copyFails && f.writeFails)
      && (!f.readFails && !defined ==> s == Step(Ok, rc, backup))
      && (s.outcome == Ok && defined ==> s.rc == RemoveFirst(rc, name) && s.backup == Some(rc))
    ensures s.outcome.Fail? ==> s.rc == rc
    ensures s.outcome.Fail? && s.outcome.error.code != FileWriteError ==> s.backup == backup
    ensures FailsWith(s.outcome, FileWriteError) ==> s.backup == Some(rc)
    ensures s.rc != rc ==> s.backup == Some(rc)
    ensures s.outcome == Ok && LineLocal(rc) ==> s.rc == RemoveFirst(rc, name)
  {
    var ls := Lines(rc);
    if f.readFails then Step(Fail(AppError(ReadErrorMessage, FileReadError)), rc, backup)
    else if FirstDefinition(ls, name) == |ls| then Step(Ok, rc, backup)
    else if f.copyFails then Step(Fail(AppError(BackupErrorMessage, BackupError)), rc, backup)
    else if f.writeFails then Step(Fail(AppError(WriteErrorMessage, FileWriteError)), rc, Some(rc))
    else Step(Ok, RemoveFirst(rc, name), Some(rc))
  }

  /** Adding a name that was not defined and then removing it leaves no line
      defining it. */
  lemma AddThenRemove(rc: string, backup: Option<string>, f: Faults, name: string, command: string)
    requires LineLocal(rc) && PlainArguments(name, command) && LiteralName(name)
    requires CountDefinitions(Lines(rc), name) == 0
    requires AddStep(rc, backup, f, name, command).outcome == Ok
    ensures var added := AddStep(rc, backup, f, name, command);
      var removed := RemoveStep(added.rc, added.backup, f, name);
      removed.outcome == Ok && CountDefinitions(Lines(removed.rc), name) == 0
  {
    var added := AddStep(rc, backup, f, name, command);
    UpsertKeepsLineLocal(rc, name, command);
    UpsertCountsOneDefinition(rc, name, command);
    RemoveCountsOneLess(added.rc, name);
    FirstDefinitionIffCounted(Lines(added.rc), name);
  }

  /** Removing a name that is defined takes the entry of its first definition,
      listed under the trimmed name, out of the listing and leaves every other
      entry in place. */
  lemma RemoveThenList(rc: string, backup: Option<string>, f: Faults, name: string)
    requires LineLocal(rc) && name != "" && '=' !in name && LiteralName(name)
    requires FirstDefinition(Lines(rc), name) < |Lines(rc)|
    requires RemoveStep(rc, backup, f, name).outcome == Ok
    ensures var ls, i := Lines(rc), FirstDefinition(Lines(rc), name);
      && ParseAliasLine(ls[i]).Some? && ParseAliasLine(ls[i]).value.name == Trim(name)
      && Parsed(ls) == Parsed(ls[..i]) + [ParseAliasLine(ls[i]).value] + Parsed(ls[i + 1..])
      && Parsed(Lines(RemoveStep(rc, backup, f, name).rc)) == Parsed(ls[..i]) + Parsed(ls[i + 1..])
  {
    RemoveIsUnlisted(rc, name);
  }

  // ---------------------------------------------------------------------------
  // The files, updated in place

  /** `~/.zshrc` and `~/.zshrc.bak`, and which file-system calls fail. */
  class AliasStore {
    var rc: string
    var backup: Option<string>
    var readFails: bool
    var copyFails: bool
    var writeFails: bool

    /** Every line of `~/.zshrc` is one the line-level patterns read exactly. */
    ghost predicate Valid()
      reads this
    {
      LineLocal(rc)
    }

    function Env(): Faults
      reads this
    {
      Faults(readFails, copyFails, writeFails)
    }

    constructor (rc: string, backup: Option<string>, faults: Faults)
      requires LineLocal(rc)
      ensures Valid()
      ensures this.rc == rc && this.backup == backup && Env() == faults
    {
      this.rc := rc;
      this.backup := backup;
      readFails := faults.readFails;
      copyFails := faults.copyFails;
      writeFails := faults.writeFails;
    }

    method AddAlias(name: string, command: string) returns (o: Outcome)
      requires Valid() && '\n' !in name && EscapesLiterally(name)
      modifies this`rc, this`backup
      ensures Step(o, rc, backup) == AddStep(old(rc), old(backup), Env(), name, command)
      ensures o.Fail? || PlainArguments(name, command) ==> Valid()
    {
      if name == "" || command == "" {
        return Fail(AppError(EmptyInputMessage, InvalidInput));
      }
      if !HasDisallowedChar(name) {
        return Fail(AppError(InvalidAliasMessage, InvalidAlias));
      }
      if readFails {
        return Fail(AppError(ReadErrorMessage, FileReadError));
      }
      var zshrc := rc;
      var newLine := NewLine(name, command);
      var ls := Lines(zshrc);
      var at := FirstDefinition(ls, name);
      if at < |ls| {
        zshrc := ReplaceLineAt(ls, at, newLine);
      } else {
        zshrc := zshrc + "\n" + newLine;
      }
      if copyFails {
        return Fail(AppError(BackupErrorMessage, BackupError));
      }
      backup := Some(rc);
      if writeFails {
        return Fail(AppError(WriteErrorMessage, FileWriteError));
      }
      if PlainArguments(name, command) {
        UpsertKeepsLineLocal(rc, name, command);
      }
      rc := zshrc;
      return Ok;
    }

    method RemoveAlias(name: string) returns (o: Outcome)
      requires Valid() && LiteralName(name)
      modifies this`rc, this`backup
      ensures Step(o, rc, backup) == RemoveStep(old(rc), old(backup), Env(), name)
      ensures Valid()
    {
      if readFails {
        return Fail(AppError(ReadErrorMessage, FileReadError));
      }
      var zshrc := rc;
      var ls := Lines(zshrc);
      var at := FirstDefinition(ls, name);
      if at == |ls| {
        return Ok;
      }
      if copyFails {
        return Fail(AppError(BackupErrorMessage, BackupError));
      }
      backup := Some(rc);
      if writeFails {
        return Fail(AppError(WriteErrorMessage, FileWriteError));
      }
      RemoveKeepsLineLocal(rc, name);
      zshrc := ReplaceLineAt(ls, at, "");
      rc := zshrc;
      return Ok;
    }

    /** `listAliases()`: the entries of the matching lines, in file order; the
        files are not touched. */
    method ListAliases() returns (r: Result<seq<string>>)
      requires Valid()
      ensures readFails ==> r == Failure(AppError(ReadErrorMessage, FileReadError))
      ensures !readFails ==> r == Success(Listing(rc))
    {
      if readFails {
        return Failure(AppError(ReadErrorMessage, FileReadError));
      }
      var lines := Lines(rc);
      var aliases: seq<string> := [];
      var i := 0;
      while i < |lines|
        invariant 0 <= i <= |lines|
        invariant aliases == FormatAll(Parsed(lines[..i]))
      {
        var m := ParseAliasLine(lines[i]);
        ParsedNext(lines, i);
        if m.Some? {
          FormatAllAppend(Parsed(lines[..i]), m.value);
          aliases := aliases + [Format(m.value)];
        }
        i := i + 1;
      }
      assert lines[..i] == lines;
      return Success(aliases);
    }
  }

  lemma ParsedNext(ls: seq<string>, i: nat)
    requires i < |ls|
    ensures Parsed(ls[..i + 1]) == Parsed(ls[..i]) + AsSeq(ParseAliasLine(ls[i]))
  {
    assert ls[..i + 1] == ls[..i] + [ls[i]];
    ParsedConcat(ls[..i], [ls[i]]);
    ParsedOne(ls[i]);
  }

  lemma FormatAllAppend(entries: seq<Alias>, a: Alias)
    ensures FormatAll(entries + [a]) == FormatAll(entries) + [Format(a)]
  {
    assert (entries + [a])[..|entries|] == entries;
  }
}
