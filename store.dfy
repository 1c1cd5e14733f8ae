/** vault/database/database.py: the credentials table and the Database object that holds the
    session password and reads and writes the table through the cipher. The SQLAlchemy
    session is an in-memory sequence of rows; a commit is the assignment to it. */
module CredentialStore {
  import opened Bytes
  import opened Outcomes
  import opened PyDict
  import opened Foreign
  import Cipher

  /** A row of the credentials table: integer primary key, unique name, encrypted entries. */
  datatype Credential = Credential(id: nat, name: string, entries: Bytes)

  /** A row as get and get_many return it, with parsed_entries attached. */
  datatype Fetched = Fetched(row: Credential, parsedEntries: Entries)

  /** The first argument of update and delete: a str, a Credential object, or None. */
  datatype Target = ByName(name: string) | Object(row: Credential) | NoTarget

  /** cipher.encrypt(json.dumps(entries), pswd), as insert and update store it. */
  function Seal(p: Primitives, entries: Entries, pswd: string, salt: Cipher.Salt): Bytes
  {
    Cipher.Encrypt(p, p.jsonDumps(entries), pswd, salt)
  }

  /** The stored blob starts with the salt it was sealed with, and that is the salt the
      read-back slices off it. */
  lemma SealStartsWithSalt(p: Primitives, entries: Entries, pswd: string, salt: Cipher.Salt)
    ensures |Seal(p, entries, pswd, salt)| >= Cipher.SALT_SIZE
    ensures Seal(p, entries, pswd, salt)[..Cipher.SALT_SIZE] == salt
    ensures Cipher.SaltOf(Seal(p, entries, pswd, salt)) == salt
  {
  }

  /** json.loads(cipher.decrypt(blob, pswd)), as get and get_many read it back. */
  function Unseal(p: Primitives, blob: Bytes, pswd: string): (r: Result<Entries>)
    ensures r.Err? ==> r.error in {InvalidToken, UnicodeDecodeError, JSONDecodeError}
  {
    match Cipher.Decrypt(p, blob, pswd)
    case Err(e) => Err(e)
    case Ok(text) =>
      match p.jsonLoads(text)
      case None => Err(JSONDecodeError)
      case Some(e) => Ok(e)
  }

  /** What insert or update stored reads back as the same dict under the same password. */
  lemma UnsealSeal(p: Primitives, entries: Entries, pswd: string, salt: Cipher.Salt)
    requires Utf8Laws(p) && FernetLaws(p) && JsonLaws(p)
    ensures Unseal(p, Seal(p, entries, pswd, salt), pswd) == Ok(entries)
  {
    Cipher.DecryptEncrypt(p, p.jsonDumps(entries), pswd, salt);
  }

  /** Under a password with other key material the stored dict does not read back. */
  lemma UnsealWrongPassword(p: Primitives, entries: Entries, pswd: string, other: string, salt: Cipher.Salt)
    requires FernetLaws(p)
    requires p.pbkdf2(SHA256, p.utf8Encode(other), salt, Cipher.ITERATIONS, Cipher.KEY_LENGTH)
          != p.pbkdf2(SHA256, p.utf8Encode(pswd), salt, Cipher.ITERATIONS, Cipher.KEY_LENGTH)
    ensures Unseal(p, Seal(p, entries, pswd, salt), other) == Err(InvalidToken)
  {
    Cipher.WrongPasswordFails(p, p.jsonDumps(entries), pswd, other, salt);
  }

  /** Every blob of the table reads back under pswd. */
  predicate AllReadable(p: Primitives, rows: seq<Credential>, pswd: string)
  {
    forall i :: 0 <= i < |rows| ==> Unseal(p, rows[i].entries, pswd).Ok?
  }

  /** What get_many returns when nothing fails: each row with its parsed entries, in order. */
  function Listing(p: Primitives, rows: seq<Credential>, pswd: string): (r: seq<Fetched>)
    requires AllReadable(p, rows, pswd)
    ensures |r| == |rows|
    ensures forall i :: 0 <= i < |rows| ==>
      r[i].row == rows[i] && Unseal(p, rows[i].entries, pswd) == Ok(r[i].parsedEntries)
  {
    if rows == [] then []
    else [Fetched(rows[0], Unseal(p, rows[0].entries, pswd).value)] + Listing(p, rows[1..], pswd)
  }

  /** A listing is determined by the rows: any sequence with Listing's properties is it. */
  lemma ListingIsUnique(p: Primitives, rows: seq<Credential>, pswd: string, fetched: seq<Fetched>)
    requires |fetched| == |rows|
    requires forall i :: 0 <= i < |rows| ==>
      fetched[i].row == rows[i] && Unseal(p, rows[i].entries, pswd) == Ok(fetched[i].parsedEntries)
    ensures AllReadable(p, rows, pswd) && fetched == Listing(p, rows, pswd)
  {
    var listing := Listing(p, rows, pswd);
    assert forall i :: 0 <= i < |rows| ==> fetched[i] == listing[i];
  }

  /** Rows in the order a full-table query returns them: by rowid. */
  predicate IdsAscending(rows: seq<Credential>)
  {
    forall i, j :: 0 <= i < j < |rows| ==> rows[i].id < rows[j].id
  }

  /** The UNIQUE constraint on the name column. */
  predicate NamesUnique(rows: seq<Credential>)
  {
    forall i, j :: 0 <= i < j < |rows| ==> rows[i].name != rows[j].name
  }

  /** query(Credential).filter_by(name=name).first(), as a position. */
  function NameIndex(rows: seq<Credential>, name: string): (r: Option<nat>)
    ensures r.Some? ==> r.value < |rows| && rows[r.value].name == name
    ensures r.Some? ==> forall j :: 0 <= j < r.value ==> rows[j].name != name
    ensures r.None? <==> forall j :: 0 <= j < |rows| ==> rows[j].name != name
  {
    if rows == [] then None
    else if rows[0].name == name then Some(0)
    else match NameIndex(rows[1..], name)
      case None => None
      case Some(k) => Some(k + 1)
  }

  /** The position of the row an ORM object is mapped to. */
  function IdIndex(rows: seq<Credential>, id: nat): (r: Option<nat>)
    ensures r.Some? ==> r.value < |rows| && rows[r.value].id == id
    ensures r.None? <==> forall j :: 0 <= j < |rows| ==> rows[j].id != id
  {
    if rows == [] then None
    else if rows[0].id == id then Some(0)
    else match IdIndex(rows[1..], id)
      case None => None
      case Some(k) => Some(k + 1)
  }

  /** The largest id in use, 0 for an empty table. */
  function MaxId(rows: seq<Credential>): (m: nat)
    ensures forall i :: 0 <= i < |rows| ==> rows[i].id <= m
    ensures rows != [] ==> exists i :: 0 <= i < |rows| && rows[i].id == m
  {
    if rows == [] then 0
    else
      var m := MaxId(rows[1..]);
      if rows[0].id >= m then rows[0].id
      else assert rows[1..] != []; m
  }

  /** The rowid SQLite gives a new row of a table whose key is an INTEGER PRIMARY KEY
      without AUTOINCREMENT: one more than the largest in use, 1 in an empty table. */
  function NextId(rows: seq<Credential>): (id: nat)
    ensures forall i :: 0 <= i < |rows| ==> rows[i].id < id
  {
    MaxId(rows) + 1
  }

  /** get after insert: the new row is the one found under its name, and its entries read
      back as the dict that was inserted. */
  lemma InsertedReadsBack(p: Primitives, rows: seq<Credential>, name: string, entries: Entries,
                          pswd: string, salt: Cipher.Salt)
    requires Utf8Laws(p) && FernetLaws(p) && JsonLaws(p) && NameIndex(rows, name).None?
    ensures var rows' := rows + [Credential(NextId(rows), name, Seal(p, entries, pswd, salt))];
      && NameIndex(rows', name) == Some(|rows|)
      && Unseal(p, rows'[|rows|].entries, pswd) == Ok(entries)
  {
    NameIndexOfAppended(rows, Credential(NextId(rows), name, Seal(p, entries, pswd, salt)));
    UnsealSeal(p, entries, pswd, salt);
  }

  /** A name no row has is found at an appended row that has it. */
  lemma {:induction false} NameIndexOfAppended(rows: seq<Credential>, row: Credential)
    requires NameIndex(rows, row.name).None?
    ensures NameIndex(rows + [row], row.name) == Some(|rows|)
  {
    if rows != [] {
      assert (rows + [row])[1..] == rows[1..] + [row];
      NameIndexOfAppended(rows[1..], row);
    }
  }

  /** get after update: the updated row is the one found under its (possibly new) name, and
      its entries read back as new_entries. */
  lemma UpdatedReadsBack(p: Primitives, rows: seq<Credential>, i: nat, name: string, entries: Entries,
                         pswd: string, salt: Cipher.Salt)
    requires Utf8Laws(p) && FernetLaws(p) && JsonLaws(p)
    requires IdsAscending(rows) && NamesUnique(rows) && i < |rows| && !Clashes(rows, name, i)
    ensures var rows' := rows[i := Credential(rows[i].id, name, Seal(p, entries, pswd, salt))];
      && NameIndex(rows', name) == Some(i)
      && Unseal(p, rows'[i].entries, pswd) == Ok(entries)
  {
    var rows' := rows[i := Credential(rows[i].id, name, Seal(p, entries, pswd, salt))];
    RenameKeepsNamesUnique(rows, i, name, rows'[i].entries);
    NameIndexOfRow(rows', i);
    UnsealSeal(p, entries, pswd, salt);
  }

  lemma NameIndexOfRow(rows: seq<Credential>, i: nat)
    requires NamesUnique(rows) && i < |rows|
    ensures NameIndex(rows, rows[i].name) == Some(i)
  {
  }

  lemma IdIndexOfRow(rows: seq<Credential>, i: nat)
    requires IdsAscending(rows) && i < |rows|
    ensures IdIndex(rows, rows[i].id) == Some(i)
  {
  }

  class Database {
    const prims: Primitives
    var pswd: string
    var rows: seq<Credential>

    ghost predicate Valid()
      reads this
    {
      Lawful(prims) && IdsAscending(rows) && NamesUnique(rows)
    }

    /** Every stored blob reads back under the password the object currently holds. */
    ghost predicate Readable()
      reads this
    {
      AllReadable(prims, rows, pswd)
    }

    /** Database(pswd) over the table already on disk. */
    constructor (p: Primitives, pswd: string, stored: seq<Credential>)
      requires Lawful(p) && IdsAscending(stored) && NamesUnique(stored)
      ensures Valid()
      ensures prims == p && this.pswd == pswd && rows == stored
    {
      prims, this.pswd, rows := p, pswd, stored;
    }

    method Exists(name: string) returns (b: bool)
      requires Valid()
      ensures b <==> exists i :: 0 <= i < |rows| && rows[i].name == name
    {
      b := NameIndex(rows, name).Some?;
    }

    /** insert: the row is added at commit, unless the name is taken, in which case the
        UNIQUE constraint fails the commit and nothing is added. */
    method Insert(name: string, entries: Entries, salt: Cipher.Salt) returns (r: Result<()>)
      requires Valid()
      modifies this`rows
      ensures Valid()
      ensures NameIndex(old(rows), name).Some? ==> r == Err(IntegrityError) && rows == old(rows)
      ensures NameIndex(old(rows), name).None? ==>
        r == Ok(()) && rows == old(rows) + [Credential(NextId(old(rows)), name, Seal(prims, entries, pswd, salt))]
      ensures old(Readable()) ==> Readable()
    {
      var row := Credential(NextId(rows), name, Seal(prims, entries, pswd, salt));
      if NameIndex(rows, name).Some? {
        return Err(IntegrityError);
      }
      AppendKeepsInvariants(rows, row);
      if Readable() {
        UnsealSeal(prims, entries, pswd, salt);
        AppendKeepsReadable(prims, rows, row, pswd);
      }
      rows := rows + [row];
      r := Ok(());
    }

    /** get: None when no row has the name; otherwise the row with its entries decrypted
        and parsed, or the exception that decrypting or parsing raised. */
    method Get(name: string) returns (r: Result<Option<Fetched>>)
      requires Valid()
      ensures r == Ok(None) <==> NameIndex(rows, name).None?
      ensures NameIndex(rows, name).Some? ==>
        var row := rows[NameIndex(rows, name).value];
        && (r.Ok? ==> r.value.Some? && r.value.value.row == row
                      && Unseal(prims, row.entries, pswd) == Ok(r.value.value.parsedEntries))
        && (r.Err? ==> Unseal(prims, row.entries, pswd) == Err(r.error))
      ensures Readable() ==> r.Ok?
    {
      match NameIndex(rows, name)
      case None =>
        r := Ok(None);
      case Some(i) =>
        var parsed := Unseal(prims, rows[i].entries, pswd);
        if parsed.Err? {
          return Err(parsed.error);
        }
        r := Ok(Some(Fetched(rows[i], parsed.value)));
    }

    /** get_many: every row, in table order, each with its entries decrypted and parsed; the
        first row that fails raises, and then nothing is returned. */
    method GetMany() returns (r: Result<seq<Fetched>>)
      requires Valid()
      ensures r.Ok? <==> Readable()
      ensures r.Ok? ==> |r.value| == |rows| && forall i :: 0 <= i < |rows| ==>
        r.value[i].row == rows[i] && Unseal(prims, rows[i].entries, pswd) == Ok(r.value[i].parsedEntries)
      ensures r.Err? ==> exists i :: 0 <= i < |rows| && Unseal(prims, rows[i].entries, pswd) == Err(r.error)
      ensures r.Ok? ==> r.value == Listing(prims, rows, pswd)
    {
      var credentials := rows;
      var fetched: seq<Fetched> := [];
      var i := 0;
      while i < |credentials|
        invariant i <= |credentials| && |fetched| == i
        invariant forall k :: 0 <= k < i ==>
          fetched[k].row == rows[k] && Unseal(prims, rows[k].entries, pswd) == Ok(fetched[k].parsedEntries)
      {
        var parsed := Unseal(prims, credentials[i].entries, pswd);
        if parsed.Err? {
          return Err(parsed.error);
        }
        fetched := fetched + [Fetched(credentials[i], parsed.value)];
        i := i + 1;
      }
      ListingIsUnique(prims, rows, pswd, fetched);
      r := Ok(fetched);
    }

    /** update: a str target is never looked up (`credential is str` compares with the type
        object and is False), so the attribute assignment on the str raises; an object whose
        row is gone is detached and its commit changes nothing; otherwise the row keeps its id,
        takes new_name when one is given, and stores new_entries encrypted under pswd, unless
        the new name belongs to another row and the commit fails. */
    method Update(target: Target, newName: Option<string>, newEntries: Entries, salt: Cipher.Salt)
      returns (r: Result<()>)
      requires Valid()
      modifies this`rows
      ensures Valid()
      ensures target.ByName? ==> r == Err(AttributeError) && rows == old(rows)
      ensures target.NoTarget? ==> r == Ok(()) && rows == old(rows)
      ensures target.Object? && IdIndex(old(rows), target.row.id).None? ==> r == Ok(()) && rows == old(rows)
      ensures target.Object? && IdIndex(old(rows), target.row.id).Some? ==>
        var i := IdIndex(old(rows), target.row.id).value;
        var name := if newName.Some? then newName.value else old(rows)[i].name;
        if Clashes(old(rows), name, i) then r == Err(IntegrityError) && rows == old(rows)
        else r == Ok(()) && rows == old(rows)[i := Credential(target.row.id, name, Seal(prims, newEntries, pswd, salt))]
      ensures old(Readable()) ==> Readable()
    {
      match target
      case NoTarget =>
        r := Ok(());
      case ByName(_) =>
        r := Err(AttributeError);
      case Object(obj) =>
        match IdIndex(rows, obj.id)
        case None =>
          r := Ok(());
        case Some(i) =>
          var name := if newName.Some? then newName.value else rows[i].name;
          if Clashes(rows, name, i) {
            return Err(IntegrityError);
          }
          var row := Credential(obj.id, name, Seal(prims, newEntries, pswd, salt));
          RenameKeepsNamesUnique(rows, i, name, row.entries);
          if Readable() {
            UnsealSeal(prims, newEntries, pswd, salt);
            ReplaceKeepsReadable(prims, rows, i, row, pswd);
          }
          rows := rows[i := row];
          r := Ok(());
    }

    /** delete: a str is not a mapped instance and an object whose row is gone is not
        persisted, so both raise; otherwise exactly that row goes. */
    method Delete(target: Target) returns (r: Result<()>)
      requires Valid()
      modifies this`rows
      ensures Valid()
      ensures target.ByName? ==> r == Err(UnmappedInstanceError) && rows == old(rows)
      ensures target.NoTarget? ==> r == Ok(()) && rows == old(rows)
      ensures target.Object? && IdIndex(old(rows), target.row.id).None? ==>
        r == Err(InvalidRequestError) && rows == old(rows)
      ensures target.Object? && IdIndex(old(rows), target.row.id).Some? ==>
        var i := IdIndex(old(rows), target.row.id).value;
        r == Ok(()) && rows == old(rows)[..i] + old(rows)[i + 1..]
      ensures old(Readable()) ==> Readable()
    {
      match target
      case NoTarget =>
        r := Ok(());
      case ByName(_) =>
        r := Err(UnmappedInstanceError);
      case Object(obj) =>
        match IdIndex(rows, obj.id)
        case None =>
          r := Err(InvalidRequestError);
        case Some(i) =>
          RemoveKeepsInvariants(rows, i);
          RemoveKeepsReadable(prims, rows, i, pswd);
          rows := rows[..i] + rows[i + 1..];
          r := Ok(());
    }
  }

  /** A row other than the i-th already has the name. */
  predicate Clashes(rows: seq<Credential>, name: string, i: nat)
  {
    NameIndex(rows, name).Some? && NameIndex(rows, name).value != i
  }

  lemma RenameKeepsNamesUnique(rows: seq<Credential>, i: nat, name: string, blob: Bytes)
    requires NamesUnique(rows) && IdsAscending(rows) && i < |rows| && !Clashes(rows, name, i)
    ensures var rows' := rows[i := Credential(rows[i].id, name, blob)];
      NamesUnique(rows') && IdsAscending(rows')
  {
  }

  lemma RemoveKeepsInvariants(rows: seq<Credential>, i: nat)
    requires NamesUnique(rows) && IdsAscending(rows) && i < |rows|
    ensures var rows' := rows[..i] + rows[i + 1..];
      NamesUnique(rows') && IdsAscending(rows')
  {
  }

  lemma AppendKeepsInvariants(rows: seq<Credential>, row: Credential)
    requires NamesUnique(rows) && IdsAscending(rows)
    requires NameIndex(rows, row.name).None? && row.id == NextId(rows)
    ensures NamesUnique(rows + [row]) && IdsAscending(rows + [row])
  {
  }

  lemma AppendKeepsReadable(p: Primitives, rows: seq<Credential>, row: Credential, pswd: string)
    requires AllReadable(p, rows, pswd) && Unseal(p, row.entries, pswd).Ok?
    ensures AllReadable(p, rows + [row], pswd)
  {
    var rows' := rows + [row];
    assert forall i :: 0 <= i < |rows| ==> rows'[i] == rows[i];
  }

  lemma ReplaceKeepsReadable(p: Primitives, rows: seq<Credential>, i: nat, row: Credential, pswd: string)
    requires i < |rows| && AllReadable(p, rows, pswd) && Unseal(p, row.entries, pswd).Ok?
    ensures AllReadable(p, rows[i := row], pswd)
  {
  }

  lemma RemoveKeepsReadable(p: Primitives, rows: seq<Credential>, i: nat, pswd: string)
    requires i < |rows|
    ensures AllReadable(p, rows, pswd) ==> AllReadable(p, rows[..i] + rows[i + 1..], pswd)
  {
    var rows' := rows[..i] + rows[i + 1..];
    assert forall k :: 0 <= k < |rows'| ==> rows'[k] == if k < i then rows[k] else rows[k + 1];
  }
}
