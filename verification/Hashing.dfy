/**
 The hash function is a parameter of everything that uses it.  Results that rest on
 collision resistance name the two colliding strings: either a pair computed from the
 data at hand, or a pair among the finitely many strings that were really hashed.
 */
module Hashing {
  import opened Bytes

  type Hash = Bytes32
  type HashFn = Bytes -> Hash

  predicate Collision(h: HashFn, x: Bytes, y: Bytes) {
    x != y && h(x) == h(y)
  }

  /** No two strings of `s` collide. */
  ghost predicate NoCollision(h: HashFn, s: set<Bytes>) {
    forall x, y {:trigger Collision(h, x, y)} :: x in s && y in s ==> !Collision(h, x, y)
  }
}
