/** Copying into arrays. */
module Arrays {

  /** `std::copy` or `memcpy`, to the place `at`. */
  method CopyTo<T>(v: array<T>, at: nat, s: seq<T>)
    requires at + |s| <= v.Length
    modifies v
    ensures v[..] == old(v[..at]) + s + old(v[at + |s|..])
  {
    forall k | 0 <= k < |s| {
      v[at + k] := s[k];
    }
  }
}
