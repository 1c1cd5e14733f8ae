/** vault/auth.py: the master-password record. The file at the configured path is absent,
    empty, or holds a bcrypt hash; create_pswd replaces it wholesale, verify_pswd only reads
    it, and authenticate_user picks one of the two from the file's state. */
module Auth {
  import opened Bytes
  import opened Outcomes
  import opened Foreign
  import UI

  datatype FileState = Absent | Present(content: Bytes)

  /** How a call ends: it returns (None included), sys.exit ends the process with a
      status, or an exception escapes. */
  datatype Exit<+T> = Returned(value: Option<T>) | Exited(status: int) | Raised(error: Error)

  /** The password file. */
  class PasswordFile {
    var state: FileState

    constructor (initial: FileState)
      ensures state == initial
    {
      state := initial;
    }
  }

  /** authenticate_user's test: the file is missing or has size 0. */
  predicate NeedsSetup(f: FileState)
  {
    f.Absent? || |f.content| == 0
  }

  /** verify_pswd, with the typed password passed in; it reads the file and writes nothing. */
  function VerifyPswd(p: Primitives, f: FileState, pswd: string, exit: bool): (o: Exit<string>)
    ensures o.Returned? && o.value.Some? <==>
      f.Present? && p.bcryptCheckpw(p.utf8Encode(pswd), f.content) == Some(true)
    ensures o.Returned? && o.value.Some? ==> o.value.value == pswd
    ensures o.Exited? <==> exit && f.Present? && p.bcryptCheckpw(p.utf8Encode(pswd), f.content) == Some(false)
    ensures o.Exited? ==> o.status == 1
    ensures o == Returned(None) <==> !exit && f.Present? && p.bcryptCheckpw(p.utf8Encode(pswd), f.content) == Some(false)
    ensures f.Absent? ==> o == Raised(FileNotFoundError)
  {
    match f
    case Absent => Raised(FileNotFoundError)
    case Present(hashed) =>
      match p.bcryptCheckpw(p.utf8Encode(pswd), hashed)
      case None => Raised(ValueError)
      case Some(false) => if exit then Exited(1) else Returned(None)
      case Some(true) => Returned(Some(pswd))
  }

  /** The hash create_pswd writes for a password. */
  function HashOf(p: Primitives, pswd: string, gensalt: Bytes): FileState
  {
    Present(p.bcryptHashpw(p.utf8Encode(pswd), gensalt))
  }

  /** create_pswd, with the two typed passwords, the answer to the save prompt and the salt
      bcrypt.gensalt() drew passed in. The file is overwritten only when the passwords match
      and the save is confirmed (or not asked for). */
  method CreatePswd(file: PasswordFile, p: Primitives, pswd: string, confirmation: string,
                    confirmSave: bool, saveAnswer: string, exit: bool, gensalt: Bytes)
    returns (o: Exit<string>)
    modifies file
    ensures pswd != confirmation ==>
      file.state == old(file.state) && o == (if exit then Exited(1) else Returned(None))
    ensures pswd == confirmation && (!confirmSave || UI.YesOrNo(saveAnswer)) ==>
      file.state == HashOf(p, pswd, gensalt) && o == Returned(Some(pswd))
    ensures pswd == confirmation && confirmSave && !UI.YesOrNo(saveAnswer) ==>
      file.state == old(file.state) && o == (if exit then Exited(0) else Returned(None))
  {
    if pswd != confirmation {
      if exit {
        return Exited(1);
      }
      return Returned(None);
    }
    var choice := if confirmSave then UI.YesOrNo(saveAnswer) else true;
    if choice {
      file.state := HashOf(p, pswd, gensalt);
      o := Returned(Some(pswd));
    } else {
      o := if exit then Exited(0) else Returned(None);
    }
  }

  /** authenticate_user: first run (no usable file) creates the password without asking
      to save; otherwise the typed password is verified. Either way a failure exits with 1. */
  method AuthenticateUser(file: PasswordFile, p: Primitives, pswd: string, confirmation: string,
                          gensalt: Bytes)
    returns (o: Exit<string>)
    modifies file
    ensures NeedsSetup(old(file.state)) && pswd == confirmation ==>
      file.state == HashOf(p, pswd, gensalt) && o == Returned(Some(pswd))
    ensures NeedsSetup(old(file.state)) && pswd != confirmation ==>
      file.state == old(file.state) && o == Exited(1)
    ensures !NeedsSetup(old(file.state)) ==>
      file.state == old(file.state) && o == VerifyPswd(p, old(file.state), pswd, true)
    ensures BcryptLaws(p) && o == Returned(Some(pswd)) ==>
      !NeedsSetup(file.state) && VerifyPswd(p, file.state, pswd, true) == Returned(Some(pswd))
  {
    if NeedsSetup(file.state) {
      o := CreatePswd(file, p, pswd, confirmation, false, "", true, gensalt);
    } else {
      o := VerifyPswd(p, file.state, pswd, true);
    }
  }

  /** A saved password verifies, and the file no longer counts as missing: the next
      authenticate_user takes the verify path. */
  lemma SavedPasswordVerifies(p: Primitives, pswd: string, gensalt: Bytes, exit: bool)
    requires BcryptLaws(p)
    ensures !NeedsSetup(HashOf(p, pswd, gensalt))
    ensures VerifyPswd(p, HashOf(p, pswd, gensalt), pswd, exit) == Returned(Some(pswd))
  {
  }
}
