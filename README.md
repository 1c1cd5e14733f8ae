# vault, modelled in Dafny

`vault` is a single-user password manager for the terminal. A master password is stored as a bcrypt hash in a password file. Each credential is a row of a SQLite table `credentials`, holding:

- an integer id;
- a unique name;
- an `entries` blob. The blob is a 16-byte salt, then a Fernet token of the JSON text of a `dict[str, str]`.

The Fernet key is derived from the master password and the row's salt with PBKDF2-HMAC-SHA256 and then base64url-encoded. A `cmd.Cmd` shell (`CredentialManager`) adds, updates and deletes credentials from typed answers. It also changes the master password: it writes the new hash, then decrypts every row and encrypts it again under the new password.

This project models four parts of it and proves properties of each model:
- the blob format (`cipher.py`);
- the table and its `Database` object (`database.py`);
- the answer-processing rules of the shell commands (`manager.py`);
- the master-password record (`auth.py`).

## Layout

| file | module | what it holds |
|---|---|---|
| `bytes.dfy`, `outcomes.dfy` | `Bytes`, `Outcomes` | bytes; `Option`, `Result` and the exceptions the code can raise |
| `foreign.dfy` | `Foreign` | PBKDF2, the UTF-8 codec, Fernet, `json` and bcrypt as function-valued fields of `Primitives`, with the laws the vault relies on (`Lawful`) |
| `witness.dfy` | `Witness` | concrete stand-ins satisfying every law (`Witness.ExampleIsLawful`), so no theorem assuming `Lawful` is vacuous |
| `base64url.dfy` | `Base64Url` | `base64.urlsafe_b64encode` (RFC 4648, section 5) with a decoder used to prove it injective |
| `cipher.dfy` | `Cipher` | `derive_key`, `encrypt`, `decrypt` |
| `pydict.dfy`, `pystr.dfy`, `ui.dfy` | `PyDict`, `PyStr`, `UI` | an insertion-ordered `dict[str, str]`, `str.strip()`, and `UI.yes_or_no` |
| `store.dfy` | `CredentialStore` | the `credentials` table and class `Database` |
| `auth.dfy` | `Auth` | the password file, `create_pswd`, `verify_pswd`, `authenticate_user` |
| `session.dfy` | `Session` | `pick_credential` and the answer-processing loops of `do_add`, `do_update` and `do_delete`, as pure functions of the typed lines |
| `manager.dfy` | `Manager` | class `CredentialManager`: the commands as methods on the `Database` it holds, and the password rotation |

How the model is set up:

- **Row order and ids.** The table is a `seq<Credential>` in rowid order, which is the order `query(...).all()` returns. A new row gets the largest id plus one, as SQLite does for an INTEGER PRIMARY KEY.
- **Commits.** A failed commit leaves the sequence as it was.
- **Typed input.** Each command reads from a `seq<string>` of typed lines. Each reader returns what it built and the lines it left. Running out of lines is `input()` raising `EOFError`.
- **The pick.** The number typed into `pick_credential` arrives already parsed as an `Option<int>`. `None` is the `ValueError` of `int()`.
- **Plans.** Each command's prompts are a pure function of the listing and the lines (`AddPlan`, `UpdatePlan`, `DeletePlan`). The command methods are proved to read exactly those lines and to change the table as the plan says.
- **Randomness and exit.** `os.urandom`, `bcrypt.gensalt()` and `getpass` results are parameters. `sys.exit` is an outcome value (`Exit`).

## Model

| member | source | states |
|---|---|---|
| Cipher.DeriveKey | vault/database/cipher.py:8-15 | the key base64url-decodes to PBKDF2-HMAC-SHA256 of the UTF-8 password over the salt, with 10000 iterations and 32 bytes, so distinct key material gives distinct keys |
| Cipher.DerivedKeyLength | vault/database/cipher.py:12-15 | when PBKDF2 yields the 32 bytes asked for, the key is the 44-byte base64url text Fernet expects |
| Cipher.Encrypt | vault/database/cipher.py:18-22 | the blob's first 16 bytes are the salt, and the rest is the Fernet token of the UTF-8 data under the key derived from the password and that salt |
| Cipher.SaltOf | vault/database/cipher.py:26 | `blob[:16]` is 16 bytes long, or the whole blob when it is shorter |
| Cipher.TokenOf | vault/database/cipher.py:26-28 | the salt slice followed by the token slice is the blob again |
| Cipher.Decrypt | vault/database/cipher.py:25-28 | decrypt succeeds only when Fernet accepts the token under the key re-derived from the blob's own salt |
| Cipher.SplitUndoesJoin | vault/database/cipher.py:22-28 | splitting `salt + token` at byte 16 gives back exactly the salt and the token |
| Cipher.DecryptRederivesKey | vault/database/cipher.py:19-27 | the key decrypt derives from the stored salt is the key encrypt used, and the token it decrypts is the one encrypt made |
| Cipher.DecryptEncrypt | vault/database/cipher.py:18-28 | `decrypt(encrypt(data, pswd), pswd) == data` |
| Cipher.SaltsSeparateBlobs | vault/database/cipher.py:19-22 | blobs made with different salts differ in their first 16 bytes, whatever the data and passwords |
| Cipher.WrongPasswordFails | vault/database/cipher.py:27-28 | under a password with different key material, decrypt raises InvalidToken and no plaintext comes out |
| Base64Url.Encode | vault/database/cipher.py:15 | the encoding of n bytes is 4·⌈n/3⌉ characters long |
| Base64Url.EncodeAlphabet | vault/database/cipher.py:15 | every output character is in the URL-safe alphabet or is '=', and the first two characters of every group of four are never '=' |
| Base64Url.DecodeEncode | vault/database/cipher.py:15 | decoding the encoding gives back the bytes |
| Base64Url.EncodeInjective | vault/database/cipher.py:15 | equal encodings come from equal bytes |
| CredentialStore.Unseal | vault/database/database.py:45-46 | reading a blob back fails only with InvalidToken, UnicodeDecodeError or JSONDecodeError |
| CredentialStore.UnsealSeal | vault/database/database.py:36-46 | what insert or update stored reads back as the same dict under the same password |
| CredentialStore.SealStartsWithSalt | vault/database/database.py:36 | the stored blob begins with the salt it was sealed with, which is what the read-back slices off |
| CredentialStore.UnsealWrongPassword | vault/database/database.py:45 | a stored dict does not read back under a password with different key material |
| CredentialStore.Listing | vault/database/database.py:49-54 | get_many's result has one entry per row, in table order, each with the row and its parsed entries |
| CredentialStore.ListingIsUnique | vault/database/database.py:49-54 | any sequence with those properties is the listing, and its existence means every row is readable |
| CredentialStore.NameIndex | vault/database/database.py:31-32 | `filter_by(name=...).first()` finds the first row with the name, and finds nothing iff no row has it |
| CredentialStore.IdIndex | vault/database/database.py:17 | the row an object with that primary key is mapped to, and none iff no row has the id |
| CredentialStore.MaxId | vault/database/database.py:17 | an upper bound on the ids in use that one of the rows attains |
| CredentialStore.NextId | vault/database/database.py:37-39 | the new rowid exceeds every id in use |
| CredentialStore.NameIndexOfRow | vault/database/database.py:18 | with unique names, a row's own name finds that row |
| CredentialStore.IdIndexOfRow | vault/database/database.py:17 | with ascending ids, a row's own id finds that row |
| CredentialStore.NameIndexOfAppended | vault/database/database.py:37-43 | a name no row had is found at the row appended with it |
| CredentialStore.InsertedReadsBack | vault/database/database.py:35-47 | after an insert, get finds the new row under its name and its entries read back as the inserted dict |
| CredentialStore.UpdatedReadsBack | vault/database/database.py:56-65 | after an update, get finds the row under its (possibly new) name and its entries read back as new_entries |
| CredentialStore.RenameKeepsNamesUnique | vault/database/database.py:60-65 | renaming a row to a name no other row has keeps names unique and ids ascending |
| CredentialStore.AppendKeepsInvariants | vault/database/database.py:37-39 | appending a row with a fresh name and the next id keeps names unique and ids ascending |
| CredentialStore.RemoveKeepsInvariants | vault/database/database.py:71-72 | removing a row keeps names unique and ids ascending |
| CredentialStore.AppendKeepsReadable | vault/database/database.py:35-39 | appending a readable row to a readable table leaves it readable |
| CredentialStore.ReplaceKeepsReadable | vault/database/database.py:62-65 | replacing a row by a readable row keeps a readable table readable |
| CredentialStore.RemoveKeepsReadable | vault/database/database.py:71-72 | removing a row keeps a readable table readable |
| CredentialStore.Database.constructor | vault/database/database.py:23-28 | the object holds the password and the table as found |
| CredentialStore.Database.Exists | vault/database/database.py:30-33 | true iff some row has the name |
| CredentialStore.Database.Insert | vault/database/database.py:35-39 | a taken name fails the commit with IntegrityError and changes nothing; otherwise exactly one row is appended, with the next id, the name and the entries sealed under the current password. Names stay unique and a readable table stays readable |
| CredentialStore.Database.Get | vault/database/database.py:41-47 | returns None iff no row has the name; otherwise the first such row with the entries its blob reads back as, or the exception reading them raised; never an error on a readable table |
| CredentialStore.Database.GetMany | vault/database/database.py:49-54 | succeeds iff every row reads back, and then returns the listing, one element per row in order; otherwise it raises the exception of a row that fails |
| CredentialStore.Database.Update | vault/database/database.py:56-65 | a str target raises AttributeError, because `credential is str` is always false; None and a row no longer in the table change nothing; otherwise the row keeps its id, takes new_name when given, and stores new_entries sealed under the current password, unless the name belongs to another row and the commit fails with IntegrityError; all other rows are untouched |
| CredentialStore.Database.Delete | vault/database/database.py:67-72 | a str target raises UnmappedInstanceError; a row no longer in the table raises InvalidRequestError; None does nothing; otherwise exactly that row is removed and the others keep their order |
| PyDict.KeyIndex | vault/manager.py:116 | the position of a key among the items, and none iff the key is absent |
| PyDict.Put | vault/manager.py:124 | `e[k] = v` keeps the size when k is present, and appends the pair when it is absent |
| PyDict.PutSemantics | vault/manager.py:176 | after `e[k] = v`, k maps to v, every other key keeps its value, and an overwritten key keeps its place in the iteration order |
| PyStr.LStripShape | vault/manager.py:101 | lstrip removes a blank prefix and stops at a non-space character |
| PyStr.RStripShape | vault/manager.py:101 | rstrip removes a blank suffix and stops at a non-space character |
| PyStr.StripShape | vault/manager.py:101 | strip leaves no whitespace at either end, and yields "" iff the answer is blank |
| PyStr.StripIdempotent | vault/manager.py:172 | stripping twice is stripping once |
| UI.AsciiLower | vault/ui.py:75 | same length; A–Z are lowered and every other character is kept |
| UI.BlankMeansYes | vault/ui.py:74-77 | an empty or all-whitespace answer means yes |
| UI.YesOrNoIgnoresPadding | vault/ui.py:75 | surrounding whitespace never changes the answer |
| UI.UpperCaseYes | vault/ui.py:75-77 | "Y" is yes: the answer is lowered before the comparison |
| UI.NoIsNo | vault/ui.py:76-78 | "n" is no |
| UI.YesOrNoExactly | vault/ui.py:74-78 | the answer is yes exactly when, stripped, it is empty or "y" or "yes" in any mix of upper and lower case |
| Auth.VerifyPswd | vault/auth.py:47-63 | returns the password iff the file exists and bcrypt checks the password against it; a wrong password exits with 1 when `exit` is set and returns None otherwise; a missing file raises FileNotFoundError; the file is only read |
| Auth.CreatePswd | vault/auth.py:11-44 | differing passwords write nothing and exit with 1 or return None; a confirmed save, or a save that is not asked about, replaces the file by the hash and returns the password; a declined save writes nothing and exits with 0 or returns None |
| Auth.AuthenticateUser | vault/auth.py:66-69 | a missing or empty file takes the create path; anything else is verified and left unchanged; a password it returns verifies against the file it leaves |
| Auth.SavedPasswordVerifies | vault/auth.py:36-63 | a saved hash is not an empty file, and the password it was made from verifies against it |
| Session.PickInRange | vault/manager.py:47-55 | choices 1..n pick `credentials[choice-1]` |
| Session.PickRejects | vault/manager.py:38-53 | an empty table, a non-number and a choice below 0 or above n pick nothing |
| Session.PickZeroIsLast | vault/manager.py:48-55 | choice 0 passes the range check and picks the last row |
| Session.PickCredential | vault/manager.py:37-56 | a credential is picked iff the table is non-empty and the number typed is in 0..n, and what is picked is one of the listed credentials |
| Session.PickedIndex | vault/manager.py:47-56 | the position the commands act on is the picked credential's place in the listing: choice - 1, or the last position for the choice 0 |
| Session.PickCredentialFixed | vault/manager.py:37-56 | picks something iff the choice is in 1..n, and then `credentials[choice-1]` |
| Session.PickFixedAgrees | vault/manager.py:48-55 | the corrected pick agrees with the source's pick on every choice except 0 |
| Session.CollectEntries | vault/manager.py:111-124 | the key/value loop fails only with EOFError and always consumes at least one line |
| Session.CollectEntriesConsumes | vault/manager.py:111-124 | the loop reads its lines from the front: what it leaves is a suffix of the input |
| Session.CollectEntriesGrows | vault/manager.py:111-124 | the loop yields at least one pair, keeps the pairs it started with, and adds no empty key |
| Session.ReadEntries | vault/manager.py:111-124 | the while-loop computes exactly CollectEntries |
| Session.RepeatedKeyRefused | vault/manager.py:116-118 | a key already present is refused: no value is read and the dict is unchanged |
| Session.Merge | vault/manager.py:171-176 | the merge over the old items fails only with EOFError and leaves at most the lines it was given |
| Session.MergeConsumes | vault/manager.py:171-176 | the merge reads its lines from the front |
| Session.MergeSize | vault/manager.py:171-176 | the merged dict has no more pairs than the old one |
| Session.MergeEntries | vault/manager.py:171-176 | the for-loop computes exactly Merge |
| Session.MergeBlankKeepsAll | vault/manager.py:171-176 | blank key and value answers keep every entry as it was and consume two lines per entry |
| Session.MergeDelDropsAll | vault/manager.py:172-174 | answering `del` to every key prompt drops every entry and asks no values |
| Session.KeepOrKeeps | vault/manager.py:175-176 | `new_key or key` and `new_value or value`: a blank answer keeps the old part, any other gives its stripped, non-empty text |
| Session.MergeAssigns | vault/manager.py:171-176 | for any answers, the merge reads exactly their lines and assigns, in order, each entry not answered `del` with its key and value replaced by the non-blank answers |
| Session.PutAllFresh | vault/manager.py:176 | assigning pairs whose keys are all different and new appends them in order |
| Session.RevisedKeepsAll | vault/manager.py:171-176 | without `del`, the i-th assigned pair comes from the i-th old entry |
| Session.MergeRevises | vault/manager.py:171-176 | without `del`, when the resulting keys differ, entry i of the new dict is old entry i with key and value each replaced by its answer unless that is blank, renamed keys included |
| Session.MergeBlankKeysKeepOrder | vault/manager.py:172-176 | blank key answers keep every old key in its place, each value replaced by its answer unless that is blank |
| Session.RevisedDropsOne | vault/manager.py:172-176 | `del` for one entry with blank answers elsewhere assigns every other old entry, unchanged and in order |
| Session.MergeDropsOne | vault/manager.py:172-176 | `del` for one entry with blank answers elsewhere gives the old dict without that entry, in order |
| Session.NewNameOf | vault/manager.py:168 | a blank name answer keeps the old name (None); any other gives its stripped, non-empty text |
| Session.RefusedExactly | vault/manager.py:101-107 | a name answer is refused iff it is blank or, stripped, the name of a row |
| Session.AcceptName | vault/manager.py:99-108 | the name loop fails only with EOFError and consumes at least one line |
| Session.AcceptNameConsumes | vault/manager.py:99-108 | the name loop reads its lines from the front |
| Session.AcceptNameAccepts | vault/manager.py:99-108 | the accepted name is the stripped answer, is non-empty and is not in the table, and every earlier answer was blank or taken |
| Session.AcceptNameExhausted | vault/manager.py:99-108 | running out of lines means every answer was blank or taken |
| Session.Confirm | vault/manager.py:128 | a confirmation prompt fails iff no line is left, and otherwise is yes_or_no of the next line |
| Session.AddPlan | vault/manager.py:97-133 | do_add's prompts fail only with EOFError, and end with the credential to save or a cancellation |
| Session.AddPlanConfirmed | vault/manager.py:99-129 | what do_add saves has a non-empty name that no row has, and at least one pair, of which none has an empty key |
| Session.Revise | vault/manager.py:166-198 | do_update's answers after the pick fail only with EOFError, and a confirmed revision has at least one pair |
| Session.UpdatePlan | vault/manager.py:156-204 | nothing is picked iff pick_credential returns None; a confirmed edit is of the credential it picked, at position choice - 1 or, for the choice 0, the last position, and has at least one pair |
| Session.DeletePlan | vault/manager.py:206-220 | nothing is picked iff pick_credential returns None; a confirmed delete names the credential it picked, at position choice - 1 or, for the choice 0, the last position |
| Session.DeleteZeroRemovesLast | vault/manager.py:206-219 | on a non-empty listing, the choice 0 and a yes delete the last row, where the corrected pick picks nothing |
| Manager.ResealedRotates | vault/manager.py:89-93 | re-sealing what get_many read, under the new password, rotates the table: same rows in the same order, same ids and names, each reading back under the new password what it held under the old one |
| Manager.CredentialManager.constructor | vault/manager.py:18-20 | the shell holds a Database over the table on disk and the password |
| Manager.CredentialManager.ReadName | vault/manager.py:99-108 | the loop that asks db.exists computes exactly AcceptName over the table |
| Manager.CredentialManager.Add | vault/manager.py:97-133 | do_add changes the table as AddPlan says: a confirmed plan appends one row with the next id, the name and the sealed entries; an error or a cancellation changes nothing; names stay unique and a readable table stays readable |
| Manager.CredentialManager.Update | vault/manager.py:156-204 | a table that does not read back raises and is left unchanged; otherwise do_update follows UpdatePlan over the listing, the choice 0 editing the last row: only the picked row changes, keeping its id, unless its new name belongs to another row |
| Manager.CredentialManager.UpdateListed | vault/manager.py:157-204 | do_update from the pick on, with pick_credential as written, follows UpdatePlan over the listing it was given |
| Manager.CredentialManager.Apply | vault/manager.py:199-201 | db.update on the i-th row: a clash with another row fails and changes nothing; otherwise only that row changes, to its id, the new or old name, and the sealed entries |
| Manager.CredentialManager.ReadRevision | vault/manager.py:166-198 | the prompts after the pick compute exactly Revise |
| Manager.CredentialManager.Delete | vault/manager.py:206-220 | a table that does not read back raises and is left unchanged; otherwise do_delete follows DeletePlan over the listing, the choice 0 picking the last row: a confirmed pick removes exactly that row |
| Manager.CredentialManager.DeleteListed | vault/manager.py:207-220 | do_delete from the pick on, with pick_credential as written, follows DeletePlan over the listing it was given |
| Manager.CredentialManager.Remove | vault/manager.py:216-217 | db.delete of the i-th row removes exactly it and keeps the others in order |
| Manager.CredentialManager.ChangePassword | vault/manager.py:82-94 | a failed verify exits or raises and changes nothing; a mismatch or a declined save changes nothing; a saved password is in the file and verifies; then an unreadable table raises, leaving rows and password as they were (the new hash stays written); a readable one is rotated to the new password |
| Manager.CredentialManager.Rotate | vault/manager.py:89-93 | get_many, then `db.pswd = pswd`, then the update loop: the table is rotated to the new password and stays readable, every row re-sealed from what get_many read |
| Manager.CredentialManager.Reseal | vault/manager.py:92-93 | one loop step changes only the blob of the i-th row and cannot clash |
| Manager.CredentialManager.Reencrypt | vault/manager.py:92-93 | after the loop every listed row holds its own entries sealed under the password the database now holds, with ids, names and order kept |

## Left out

- Real cryptography and the `json` module are not modelled: PBKDF2, Fernet (AES-CBC with HMAC), bcrypt and JSON text. They are the fields of `Foreign.Primitives`, and the laws in `Foreign` state all the model uses. The wrong-key law idealises Fernet's HMAC check as never accepting a token made under another key.
- Fernet's random IV and timestamp are not modelled. `fernetEncrypt` is a function of the key and the data, and the token lifetime check is not used by the code.
- bcrypt's cost factor and its 72-byte password truncation are not modelled. The laws say only that a password checks against a hash made from it and that a hash is 60 bytes long.
- `os.urandom(16)`, `bcrypt.gensalt()`, `getpass` and `input()` are parameters, because they are randomness and terminal I/O.
- `int(input(...))` is not modelled, because number parsing is outside the model. The choice arrives as an `Option<int>`.
- `str.lower()` is modelled on A–Z only (`UI.AsciiLower`). No other character lowers to `y`, `e` or `s`, so this decides `yes_or_no` the same way.
- The SQLAlchemy session after a failed commit is not modelled. The model treats the table as unchanged and the session as usable, whereas SQLAlchemy needs a rollback before the next query.
- `create_pswd` opens the file with `'wb'` and then calls `hashpw`. Truncating before hashing only matters if hashing fails, so the model writes the new hash in one step.
- `do_get` and `do_list` are not modelled separately, because they only call `pick_credential`/`get_many` and then print.
- `do_help`, `default` and `get_commands` are left out: they reflect over method names and print.
- `do_clear` and `do_exit` are left out: they clear the screen and call `sys.exit(0)`.
- `vault/config.py`, `vault/__main__.py` and `setup.py` are left out, because they are filesystem bootstrap, argument dispatch and packaging. The two paths they provide are the `PasswordFile` object and the table the `Database` is built over.
- The Halo spinners and everything else `UI` prints are left out.
- KeyboardInterrupt at a prompt is not modelled.
- A `Credential` object whose row is no longer in the table reaches `update` and `delete` only from code outside this model; no modelled command passes one. For such an object the model makes `update` change nothing and `delete` raise InvalidRequestError. These outcomes are assumptions about SQLAlchemy, not something database.py itself states.
- On four points the code behaves in ways a reader may not expect, and the model follows the code:
  1. `update` and `delete` never resolve a string target by name.
  2. The new master-password hash is written before any row is re-encrypted.
  3. Rotation commits row by row and is not atomic. A table that does not read back makes `get_many` raise after the hash was already replaced (see `ChangePassword`).
  4. `derive_key` does not reject an empty password or a salt that is not 16 bytes long; `decrypt` derives from whatever prefix a short blob has. A taken name fails at commit with IntegrityError, not a dedicated error.

## Findings

| source | as written | input that shows it | evidently intended | confidence | as-written member | corrected member |
|---|---|---|---|---|---|---|
| vault/manager.py:48-55 | `if choice < 0 or choice > len(credentials)` lets 0 through, and `credentials[0 - 1]` is the last row | a table of two rows and the choice 0 picks the second row, although the prompt says "Choose from [1-2]" | only 1..n pass the check (`choice < 1`) | not executed | Session.PickZeroIsLast | Session.PickCredentialFixed |

The commands in `Manager` run the pick as written, so the choice 0 reaches the table: `Session.DeleteZeroRemovesLast` shows do_delete removing the last row. `Session.PickCredentialFixed` is the intended pick, and `Session.PickFixedAgrees` shows that it differs from the code only at the choice 0.
