/** vault/manager.py: the CredentialManager shell. Each command reads its answers from a
    sequence of typed lines (the choice of pick_credential arrives already parsed), works
    on the Database it holds, and reports how it ended. */
module Manager {
  import opened Bytes
  import opened Outcomes
  import opened PyStr
  import opened PyDict
  import opened Foreign
  import opened CredentialStore
  import opened Auth
  import opened Session
  import Cipher
  import UI

  /** How a command ended when it raised nothing: no credential was picked, the
      confirmation was declined, or the change was made. */
  datatype Status = NothingPicked | Cancelled | Done

  /** After a password change: the same rows in the same order, each holding the same
      entries, now readable under the new password. */
  ghost predicate Rotated(p: Primitives, before: seq<Credential>, oldPswd: string,
                          after: seq<Credential>, newPswd: string)
  {
    && |after| == |before|
    && forall i :: 0 <= i < |before| ==>
      && after[i].id == before[i].id && after[i].name == before[i].name
      && Unseal(p, after[i].entries, newPswd) == Unseal(p, before[i].entries, oldPswd)
  }

  /** The outcome of do_delete for a plan: an error or a cancellation changes nothing; a
      confirmed pick removes exactly that row. */
  predicate DeletedAsPlanned(plan: Result<Decision<nat>>, r: Result<Status>,
                             before: seq<Credential>, after: seq<Credential>)
  {
    if plan.Err? then r == Err(plan.error) && after == before
    else if plan.value.Unpicked? then r == Ok(NothingPicked) && after == before
    else if plan.value.Declined? then r == Ok(Cancelled) && after == before
    else plan.value.plan < |before| && r == Ok(Done) && after == before[..plan.value.plan] + before[plan.value.plan + 1..]
  }

  /** The outcome of do_update for a plan: an error or a cancellation changes nothing; a
      confirmed edit renames and re-seals the picked row unless the new name is taken. */
  predicate UpdatedAsPlanned(plan: Result<Decision<Edit>>, r: Result<Status>, before: seq<Credential>,
                             after: seq<Credential>, p: Primitives, pswd: string, salt: Cipher.Salt)
  {
    if plan.Err? then r == Err(plan.error) && after == before
    else if plan.value.Unpicked? then r == Ok(NothingPicked) && after == before
    else if plan.value.Declined? then r == Ok(Cancelled) && after == before
    else
      var i := plan.value.plan.index;
      i < |before| &&
      var name := if plan.value.plan.newName.Some? then plan.value.plan.newName.value else before[i].name;
      if Clashes(before, name, i) then r == Err(IntegrityError) && after == before
      else
        && r == Ok(Done)
        && after == before[i := Credential(before[i].id, name, Seal(p, plan.value.plan.entries, pswd, salt))]
  }

  /** rows holds the listed credentials in order, each entries dict sealed under pswd with
      its own salt. */
  predicate Resealed(p: Primitives, listed: seq<Fetched>, rows: seq<Credential>, pswd: string,
                     salts: nat -> Cipher.Salt)
  {
    && |rows| == |listed|
    && forall i :: 0 <= i < |rows| ==>
      rows[i] == Credential(listed[i].row.id, listed[i].row.name, Seal(p, listed[i].parsedEntries, pswd, salts(i)))
  }

  /** Re-sealing what get_many read rotates the table: every row keeps its id and name and
      reads back, under the new password, what it held under the old one. */
  lemma ResealedRotates(p: Primitives, before: seq<Credential>, oldPswd: string, after: seq<Credential>,
                        newPswd: string, salts: nat -> Cipher.Salt)
    requires Lawful(p) && AllReadable(p, before, oldPswd)
    requires Resealed(p, Listing(p, before, oldPswd), after, newPswd, salts)
    ensures Rotated(p, before, oldPswd, after, newPswd) && AllReadable(p, after, newPswd)
  {
    var listed := Listing(p, before, oldPswd);
    forall i | 0 <= i < |after|
      ensures Unseal(p, after[i].entries, newPswd) == Unseal(p, before[i].entries, oldPswd)
    {
      UnsealSeal(p, listed[i].parsedEntries, newPswd, salts(i));
    }
  }

  /** The i-th fetched credential is the i-th row of the table. */
  predicate Lists(listed: seq<Fetched>, rows: seq<Credential>)
  {
    |listed| == |rows| && forall k :: 0 <= k < |rows| ==> listed[k].row == rows[k]
  }

  class CredentialManager {
    const db: Database
    const passwordFile: PasswordFile

    ghost predicate Valid()
      reads this, db
    {
      db.Valid()
    }

    /** CredentialManager(pswd) over the table on disk and the password file. */
    constructor (p: Primitives, pswd: string, stored: seq<Credential>, file: PasswordFile)
      requires Lawful(p) && IdsAscending(stored) && NamesUnique(stored)
      ensures Valid() && fresh(db)
      ensures db.prims == p && db.pswd == pswd && db.rows == stored && passwordFile == file
    {
      db := new Database(p, pswd, stored);
      passwordFile := file;
    }

    /** do_add's "Name: " loop, asking the database whether each stripped answer is taken. */
    method ReadName(inputs: seq<string>) returns (r: Result<(string, seq<string>)>)
      requires Valid()
      ensures r == AcceptName(db.rows, inputs)
    {
      var lines := inputs;
      while true
        invariant AcceptName(db.rows, lines) == AcceptName(db.rows, inputs)
        decreases |lines|
      {
        if lines == [] {
          return Err(EOFError);
        }
        var name := Strip(lines[0]);
        lines := lines[1..];
        if name == "" {
          continue;          // "Please enter the name"
        }
        var used := db.Exists(name);
        if used {
          continue;          // "'name' was already used"
        }
        return Ok((name, lines));
      }
    }

    /** do_add: a fresh name, at least one pair, and on "Save it?" the insert. The new row
        goes after the others with the next rowid. */
    method Add(inputs: seq<string>, salt: Cipher.Salt) returns (r: Result<Status>)
      requires Valid()
      modifies db`rows
      ensures Valid()
      ensures
        var plan := AddPlan(old(db.rows), inputs);
        if plan.Err? then r == Err(plan.error) && db.rows == old(db.rows)
        else if plan.value.Confirmed? then
          && r == Ok(Done)
          && db.rows == old(db.rows) + [Credential(NextId(old(db.rows)), plan.value.plan.0,
                                                   Seal(db.prims, plan.value.plan.1, db.pswd, salt))]
        else r == Ok(Cancelled) && db.rows == old(db.rows)
      ensures old(db.Readable()) ==> db.Readable()
    {
      var named := ReadName(inputs);
      if named.Err? {
        return Err(named.error);
      }
      AcceptNameAccepts(db.rows, inputs);
      var collected := ReadEntries([], named.value.1);
      if collected.Err? {
        return Err(collected.error);
      }
      var rest := collected.value.1;
      if rest == [] {
        return Err(EOFError);
      }
      if UI.YesOrNo(rest[0]) {
        var inserted := db.Insert(named.value.0, collected.value.0, salt);
        assert inserted.Ok?;   // the name loop only accepts an unused name
        r := Ok(Done);
      } else {
        r := Ok(Cancelled);
      }
    }

    /** do_update: get_many, the pick, the name and per-entry answers, the new pairs, and on
        "Update it?" the update of the picked row. */
    method Update(choice: Option<int>, inputs: seq<string>, salt: Cipher.Salt) returns (r: Result<Status>)
      requires Valid()
      modifies db`rows
      ensures Valid()
      ensures !old(db.Readable()) ==> r.Err? && db.rows == old(db.rows)
      ensures old(db.Readable()) ==> UpdatedAsPlanned(
        UpdatePlan(Listing(db.prims, old(db.rows), db.pswd), choice, inputs), r, old(db.rows), db.rows, db.prims, db.pswd, salt)
      ensures old(db.Readable()) ==> db.Readable()
    {
      var listed := db.GetMany();
      if listed.Err? {
        return Err(listed.error);
      }
      r := UpdateListed(listed.value, choice, inputs, salt);
    }

    /** do_update from the pick on, over what get_many returned. */
    method UpdateListed(listed: seq<Fetched>, choice: Option<int>, inputs: seq<string>, salt: Cipher.Salt)
      returns (r: Result<Status>)
      requires Valid() && Lists(listed, db.rows)
      modifies db`rows
      ensures Valid()
      ensures old(db.Readable()) ==> db.Readable()
      ensures UpdatedAsPlanned(UpdatePlan(listed, choice, inputs), r, old(db.rows), db.rows, db.prims, db.pswd, salt)
    {
      var picked := PickedIndex(listed, choice);
      if picked.None? {
        return Ok(NothingPicked);
      }
      var revised := ReadRevision(listed[picked.value], inputs);
      if revised.Err? {
        return Err(revised.error);
      }
      if revised.value.None? {
        return Ok(Cancelled);
      }
      r := Apply(picked.value, revised.value.value.0, revised.value.value.1, salt);
    }

    /** db.update(picked_credential, new_name, new_entries) on the i-th listed row. */
    method Apply(i: nat, newName: Option<string>, entries: Entries, salt: Cipher.Salt) returns (r: Result<Status>)
      requires Valid() && i < |db.rows|
      modifies db`rows
      ensures Valid()
      ensures
        var name := if newName.Some? then newName.value else old(db.rows)[i].name;
        if Clashes(old(db.rows), name, i) then r == Err(IntegrityError) && db.rows == old(db.rows)
        else
          && r == Ok(Done)
          && db.rows == old(db.rows)[i := Credential(old(db.rows)[i].id, name, Seal(db.prims, entries, db.pswd, salt))]
      ensures old(db.Readable()) ==> db.Readable()
    {
      IdIndexOfRow(db.rows, i);
      var updated := db.Update(Object(db.rows[i]), newName, entries, salt);
      if updated.Err? {
        return Err(updated.error);
      }
      r := Ok(Done);
    }

    /** do_update's prompts once a credential is picked, as the source asks them. */
    static method ReadRevision(picked: Fetched, inputs: seq<string>) returns (r: Result<Option<(Option<string>, Entries)>>)
      ensures r == Revise(picked, inputs)
    {
      if inputs == [] {
        return Err(EOFError);
      }
      var newName := NewNameOf(inputs[0]);
      var merged := MergeEntries(picked.parsedEntries, inputs[1..]);
      if merged.Err? {
        return Err(merged.error);
      }
      var collected := ReadEntries(merged.value.0, merged.value.1);
      if collected.Err? {
        return Err(collected.error);
      }
      var rest := collected.value.1;
      if rest == [] {
        return Err(EOFError);
      }
      if UI.YesOrNo(rest[0]) {
        r := Ok(Some((newName, collected.value.0)));
      } else {
        r := Ok(None);
      }
    }

    /** do_delete: get_many, the pick, and on "Delete it?" the delete of the picked row. */
    method Delete(choice: Option<int>, inputs: seq<string>) returns (r: Result<Status>)
      requires Valid()
      modifies db`rows
      ensures Valid()
      ensures !old(db.Readable()) ==> r.Err? && db.rows == old(db.rows)
      ensures old(db.Readable()) ==>
        DeletedAsPlanned(DeletePlan(Listing(db.prims, old(db.rows), db.pswd), choice, inputs), r, old(db.rows), db.rows)
      ensures old(db.Readable()) ==> db.Readable()
    {
      var listed := db.GetMany();
      if listed.Err? {
        return Err(listed.error);
      }
      r := DeleteListed(listed.value, choice, inputs);
    }

    /** do_delete from the pick on, over what get_many returned. */
    method DeleteListed(listed: seq<Fetched>, choice: Option<int>, inputs: seq<string>) returns (r: Result<Status>)
      requires Valid() && Lists(listed, db.rows)
      modifies db`rows
      ensures Valid()
      ensures old(db.Readable()) ==> db.Readable()
      ensures DeletedAsPlanned(DeletePlan(listed, choice, inputs), r, old(db.rows), db.rows)
    {
      var picked := PickedIndex(listed, choice);
      if picked.None? {
        return Ok(NothingPicked);
      }
      if inputs == [] {
        return Err(EOFError);
      }
      if UI.YesOrNo(inputs[0]) {
        Remove(picked.value);
        r := Ok(Done);
      } else {
        r := Ok(Cancelled);
      }
    }

    /** db.delete(picked_credential) on the i-th listed row, which is in the table. */
    method Remove(i: nat)
      requires Valid() && i < |db.rows|
      modifies db`rows
      ensures Valid()
      ensures db.rows == old(db.rows)[..i] + old(db.rows)[i + 1..]
      ensures old(db.Readable()) ==> db.Readable()
    {
      IdIndexOfRow(db.rows, i);
      var deleted := db.Delete(Object(db.rows[i]));
      assert deleted.Ok?;
    }

    /** do_change_password: verify the current password (exiting on a wrong one), then
        create the new one with a save confirmation and without exiting; once it is saved,
        Rotate. The new hash is written before any row is read, so a row that cannot be read
        leaves the file changed and the table as it was. */
    method ChangePassword(current: string, newPswd: string, confirmation: string, saveAnswer: string,
                          gensalt: Bytes, salts: nat -> Cipher.Salt) returns (o: Exit<()>)
      requires Valid()
      modifies db`rows, db`pswd, passwordFile
      ensures Valid()
      ensures
        var v := VerifyPswd(db.prims, old(passwordFile.state), current, true);
        !v.Returned? ==>
          && o == (if v.Exited? then Exited(v.status) else Raised(v.error))
          && db.rows == old(db.rows) && db.pswd == old(db.pswd) && passwordFile.state == old(passwordFile.state)
      ensures
        VerifyPswd(db.prims, old(passwordFile.state), current, true).Returned? &&
        !(newPswd == confirmation && UI.YesOrNo(saveAnswer)) ==>
          && o == Returned(None)
          && db.rows == old(db.rows) && db.pswd == old(db.pswd) && passwordFile.state == old(passwordFile.state)
      ensures
        VerifyPswd(db.prims, old(passwordFile.state), current, true).Returned? &&
        newPswd == confirmation && UI.YesOrNo(saveAnswer) ==>
          && passwordFile.state == HashOf(db.prims, newPswd, gensalt)
          && VerifyPswd(db.prims, passwordFile.state, newPswd, true) == Returned(Some(newPswd))
          && (!old(db.Readable()) ==> o.Raised? && db.rows == old(db.rows) && db.pswd == old(db.pswd))
          && (old(db.Readable()) ==>
                && o == Returned(None) && db.pswd == newPswd && db.Readable()
                && Rotated(db.prims, old(db.rows), old(db.pswd), db.rows, newPswd))
    {
      var verified := VerifyPswd(db.prims, passwordFile.state, current, true);
      if verified.Exited? {
        return Exited(verified.status);
      }
      if verified.Raised? {
        return Raised(verified.error);
      }
      var created := CreatePswd(passwordFile, db.prims, newPswd, confirmation, true, saveAnswer, false, gensalt);
      if created.Returned? && created.value.Some? {
        SavedPasswordVerifies(db.prims, newPswd, gensalt, true);
        o := Rotate(created.value.value, salts);
      } else {
        o := Returned(None);
      }
    }

    /** The rest of do_change_password once the new password is saved: read every
        credential under the old password, switch to the new one, and update every row with
        its own entries so that it is sealed again. */
    method Rotate(newPswd: string, salts: nat -> Cipher.Salt) returns (o: Exit<()>)
      requires Valid()
      modifies db`rows, db`pswd
      ensures Valid()
      ensures !old(db.Readable()) ==> o.Raised? && db.rows == old(db.rows) && db.pswd == old(db.pswd)
      ensures old(db.Readable()) ==>
        && o == Returned(None) && db.pswd == newPswd && db.Readable()
        && Rotated(db.prims, old(db.rows), old(db.pswd), db.rows, newPswd)
        && Resealed(db.prims, Listing(db.prims, old(db.rows), old(db.pswd)), db.rows, newPswd, salts)
    {
      ghost var before, oldPswd := db.rows, db.pswd;
      var listed := db.GetMany();
      if listed.Err? {
        return Raised(listed.error);
      }
      db.pswd := newPswd;
      Reencrypt(listed.value, salts);
      ResealedRotates(db.prims, before, oldPswd, db.rows, newPswd, salts);
      o := Returned(None);
    }

    /** One step of the rotation loop, db.update(credential, None, credential.parsed_entries):
        the row keeps its name, so the update cannot clash and only the row's blob changes. */
    method Reseal(i: nat, entries: Entries, salt: Cipher.Salt)
      requires Valid() && i < |db.rows|
      modifies db`rows
      ensures Valid()
      ensures db.rows == old(db.rows)[i := old(db.rows)[i].(entries := Seal(db.prims, entries, db.pswd, salt))]
    {
      assert !Clashes(db.rows, db.rows[i].name, i) by {
        NameIndexOfRow(db.rows, i);   // the row keeps its own name: nothing can clash
      }
      var _ := Apply(i, None, entries, salt);
    }

    /** The loop of do_change_password: update every listed credential with its own entries
        under the password the database now holds. */
    method Reencrypt(credentials: seq<Fetched>, salts: nat -> Cipher.Salt)
      requires Valid() && Lists(credentials, db.rows)
      modifies db`rows
      ensures Valid()
      ensures Resealed(db.prims, credentials, db.rows, db.pswd, salts)
    {
      var i := 0;
      while i < |credentials|
        invariant Valid() && i <= |credentials| && |db.rows| == |credentials|
        invariant forall k :: 0 <= k < i ==>
          db.rows[k] == Credential(credentials[k].row.id, credentials[k].row.name,
                                   Seal(db.prims, credentials[k].parsedEntries, db.pswd, salts(k)))
        invariant forall k :: i <= k < |credentials| ==> db.rows[k] == credentials[k].row
      {
        Reseal(i, credentials[i].parsedEntries, salts(i));
        i := i + 1;
      }
    }
  }
}
