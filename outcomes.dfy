/** Values that stand for Python's None and for the exceptions the vault's code raises. */
module Outcomes {

  datatype Option<+T> = None | Some(value: T)

  /** The exceptions that escape from the modelled code, named after the Python classes. */
  datatype Error =
    | InvalidToken            // cryptography.fernet.InvalidToken: the token does not authenticate
    | UnicodeDecodeError      // bytes.decode() on a plaintext that is not UTF-8
    | JSONDecodeError         // json.loads on text that is not JSON
    | IntegrityError          // the UNIQUE constraint on credentials.name, at commit
    | AttributeError          // an attribute assignment on a str
    | UnmappedInstanceError   // session.delete() of something that is not a mapped object
    | InvalidRequestError     // session.delete() of an object whose row is gone
    | FileNotFoundError       // open() of the password file when it is absent
    | ValueError              // bcrypt.checkpw on a stored value that is not a bcrypt hash ("Invalid salt")
    | EOFError                // input() once the input is exhausted

  /** A value or the exception that interrupted the computation of it. */
  datatype Result<+T> = Ok(value: T) | Err(error: Error)
}
