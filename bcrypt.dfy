/** Password hashing (`bcrypt.hash(password, 10)` and `bcrypt.compare`),
    symbolically: a digest records the password it was made from, and
    nothing in the model reads a stored digest except Compare. Salt and work
    factor are not modelled; the digest is a distinct type, so a stored
    password can never be a plaintext string. */
module Bcrypt {

  datatype PasswordHash = Digest(preimage: string)

  function Hash(password: string): PasswordHash {
    Digest(password)
  }

  /** `bcrypt.compare(password, hash)`: true exactly for the hashed password.
      The digest records the whole password; bcrypt's reading of only its
      first 72 bytes is not modelled. */
  function Compare(password: string, hash: PasswordHash): (ok: bool)
    ensures ok <==> hash == Hash(password)
  {
    hash.preimage == password
  }
}
