/** Password hashing, left abstract. The Argon2 functions the service calls
    are foreign code, so a hasher is a value of three functions about which
    the model assumes only what `Sound` states. */
module Hash {

  /** `hash(password, salt)` is the encoded hash string `hash_password`
      returns; `wellFormed(h)` holds when `h` parses as such a string (the
      case in which `verify_password` returns `Ok`); `verify(password, h)`
      is the boolean `verify_password` returns for a well-formed `h`. */
  datatype Hasher = Hasher(
    hash: (string, string) -> string,
    wellFormed: string -> bool,
    verify: (string, string) -> bool)

  /** What the model assumes of the hashing library: every hash it produces
      is well-formed and verifies against its own password, and against no
      other password. */
  ghost predicate Sound(h: Hasher) {
    && (forall p, s :: h.wellFormed(h.hash(p, s)))
    && (forall p, s :: h.verify(p, h.hash(p, s)))
    && (forall p, q, s :: p != q ==> !h.verify(q, h.hash(p, s)))
  }

  /** `verify_password(password, hash).ok().unwrap()`: the unwrap panics on
      a hash that does not parse, so the caller must supply a well-formed
      one. Against a hash the library made from `q`, a sound hasher accepts
      exactly `q`. */
  function VerifyPassword(h: Hasher, password: string, hash: string): (r: bool)
    requires h.wellFormed(hash)
    ensures Sound(h) ==> forall q, s :: hash == h.hash(q, s) ==> (r <==> password == q)
  {
    h.verify(password, hash)
  }
}
