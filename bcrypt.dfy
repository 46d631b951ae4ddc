/** The part of bcryptjs the services use. A digest embeds the salt and the
    cost it was made with; the one-way image of the password is kept as an
    opaque component that only Compare inspects. Salts are random in the
    library, so they are parameters here. */
module Bcrypt {

  datatype Digest = Digest(cost: nat, salt: nat, image: string)

  /** The cost factor both services pass to `bcrypt.hash`. */
  const SaltRounds: nat := 10

  /** `bcrypt.hash(password, cost)` with the salt the library drew. */
  function Hash(password: string, salt: nat, cost: nat): (d: Digest)
    ensures d.salt == salt && d.cost == cost
  {
    Digest(cost, salt, password)
  }

  /** `bcrypt.compare(password, digest)`: re-hash the candidate under the
      digest's own salt and cost and compare the results. */
  function Compare(password: string, d: Digest): (ok: bool)
    ensures ok <==> Hash(password, d.salt, d.cost) == d
  {
    d.image == password
  }

  /** A password always verifies against its own digest, whatever the salt. */
  lemma CompareHash(password: string, salt: nat, cost: nat)
    ensures Compare(password, Hash(password, salt, cost))
  {
  }

  /** The model's digests do not collide: another password never verifies.
      This relies on that idealisation: bcryptjs hashes only the first 72
      UTF-8 bytes of a password, and the registration DTO sets no upper bound
      on its length, so two long passwords sharing those bytes would both
      verify against one digest. */
  lemma CompareRejectsOther(password: string, other: string, salt: nat, cost: nat)
    requires other != password
    ensures !Compare(other, Hash(password, salt, cost))
  {
  }
}
