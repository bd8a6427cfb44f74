/** The interactive add flow of lib/cliFlow.ts: the two prompt validators and
    `handleUserResponses`, which passes the answers on to `addAlias`. */
module CliFlow {
  import opened Text
  import opened Constants
  import opened Errors
  import opened AliasText
  import opened ZshrcEditor

  const CommandRequiredMessage := "명령어를 입력해야 합니다."
  const AliasRequiredMessage := "단축어를 입력해야 합니다."
  const AliasCharsetMessage := "단축어는 알파벳, 숫자, 언더스코어만 사용할 수 있습니다."
  const AddFailedPrefix := "단축어 추가 실패: "

  /** What an inquirer `validate` callback returns: `true`, or the message to show. */
  datatype Verdict = Accept | Reject(message: string)

  /** The answers of the three prompts. */
  datatype Responses = Responses(fullCmd: string, shortAlias: string, confirm: bool)

  /** `validateFullCommand`: a command must hold something other than white space. */
  function ValidateFullCommand(input: string): (v: Verdict)
    ensures v == Accept <==> !IsBlank(input)
    ensures v.Reject? ==> v.message == CommandRequiredMessage
  {
    TrimEmptyIffBlank(input);
    if Trim(input) == [] then Reject(CommandRequiredMessage) else Accept
  }

  /** `validateShortAlias`: a blank name is refused; then, with the same pattern
      test as `addAlias`, a name made only of allowed characters is refused. */
  function ValidateShortAlias(input: string): (v: Verdict)
    ensures v == Reject(AliasRequiredMessage) <==> IsBlank(input)
    ensures v == Reject(AliasCharsetMessage) <==> !IsBlank(input) && !HasDisallowedChar(input)
    ensures v == Accept <==> !IsBlank(input) && HasDisallowedChar(input)
  {
    TrimEmptyIffBlank(input);
    if Trim(input) == [] then Reject(AliasRequiredMessage)
    else if !HasDisallowedChar(input) then Reject(AliasCharsetMessage)
    else Accept
  }

  /** `handleUserResponses`: nothing happens unless the user confirmed; otherwise
      `addAlias(shortAlias, fullCmd)` runs and any error it throws is rethrown as
      `ALIAS_ADD_ERROR` with its message after a fixed prefix. */
  function HandleStep(rc: string, backup: Option<string>, f: Faults, r: Responses): (s: Step)
    ensures !r.confirm ==> s == Step(Ok, rc, backup)
    ensures r.confirm ==> var added := AddStep(rc, backup, f, r.shortAlias, r.fullCmd);
      && s.rc == added.rc && s.backup == added.backup
      && (s.outcome == Ok <==> added.outcome == Ok)
      && (s.outcome.Fail? ==>
            s.outcome.error == AppError(AddFailedPrefix + added.outcome.error.message, AliasAddError))
  {
    if !r.confirm then Step(Ok, rc, backup)
    else
      var added := AddStep(rc, backup, f, r.shortAlias, r.fullCmd);
      match added.outcome
      case Ok => added
      case Fail(e) => Step(Fail(AppError(AddFailedPrefix + e.message, AliasAddError)), added.rc, added.backup)
  }

  method HandleUserResponses(store: AliasStore, r: Responses) returns (o: Outcome)
    requires store.Valid() && '\n' !in r.shortAlias && EscapesLiterally(r.shortAlias)
    modifies store`rc, store`backup
    ensures Step(o, store.rc, store.backup) == HandleStep(old(store.rc), old(store.backup), store.Env(), r)
  {
    if r.confirm {
      var added := store.AddAlias(r.shortAlias, r.fullCmd);
      if added.Fail? {
        return Fail(AppError(AddFailedPrefix + added.error.message, AliasAddError));
      }
    }
    return Ok;
  }

  /** Answers the prompts accepted never fail `addAlias`'s input checks: with no
      file-system fault the alias is written. */
  lemma ValidatedAnswersPassChecks(rc: string, backup: Option<string>, f: Faults, r: Responses)
    requires ValidateFullCommand(r.fullCmd) == Accept && ValidateShortAlias(r.shortAlias) == Accept
    ensures var added := AddStep(rc, backup, f, r.shortAlias, r.fullCmd);
      && !FailsWith(added.outcome, InvalidInput) && !FailsWith(added.outcome, InvalidAlias)
      && (!f.readFails && !f.copyFails && !f.writeFails ==> added.outcome == Ok)
  {
    assert IsBlank("");
  }

  /** The prompt and the editor apply the same character test: for a name that
      is not blank, the prompt refuses it for its characters exactly when
      `addAlias` would throw `INVALID_ALIAS`. */
  lemma PromptAndEditorAgree(rc: string, backup: Option<string>, f: Faults, name: string, command: string)
    requires !IsBlank(name) && command != ""
    ensures ValidateShortAlias(name) == Reject(AliasCharsetMessage)
            <==> FailsWith(AddStep(rc, backup, f, name, command).outcome, InvalidAlias)
  {
    assert IsBlank("");
  }

  /** The prompt is stricter than the editor: a non-empty name of white space
      only, which the prompt refuses, gets past both of `addAlias`'s input checks. */
  lemma BlankNameReachesEditor(rc: string, backup: Option<string>, f: Faults, name: string, command: string)
    requires name != "" && IsBlank(name) && command != ""
    ensures ValidateShortAlias(name) == Reject(AliasRequiredMessage)
    ensures var added := AddStep(rc, backup, f, name, command);
      !FailsWith(added.outcome, InvalidInput) && !FailsWith(added.outcome, InvalidAlias)
  {
    assert IsSpace(name[0]);
    assert !IsAliasChar(name[0]);
  }

  /** An add that fails for any reason reaches the user as `ALIAS_ADD_ERROR`,
      whose message carries `addAlias`'s own. */
  lemma FailureIsWrapped(rc: string, backup: Option<string>, f: Faults, r: Responses)
    requires HandleStep(rc, backup, f, r).outcome.Fail?
    ensures r.confirm
    ensures var e := HandleStep(rc, backup, f, r).outcome.error;
      e.code == AliasAddError && AddFailedPrefix <= e.message
  {
    var added := AddStep(rc, backup, f, r.shortAlias, r.fullCmd);
    assert AddFailedPrefix + added.outcome.error.message == HandleStep(rc, backup, f, r).outcome.error.message;
  }
}
