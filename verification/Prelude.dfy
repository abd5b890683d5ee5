/** Result types and small text helpers shared by the modelled services. */
module Prelude {

  datatype Option<+T> = None | Some(value: T)

  datatype Result<+T, +E> = Success(value: T) | Failure(error: E)

  /** `sub` occurs in `text` at offset `p`. */
  predicate OccursAt(text: string, sub: string, p: int) {
    0 <= p && p + |sub| <= |text| && text[p..p + |sub|] == sub
  }

  predicate Contains(text: string, sub: string) {
    exists p :: 0 <= p <= |text| - |sub| && OccursAt(text, sub, p)
  }

  /** The characters that Python's `str.isspace` and the regular expression `\s` accept. */
  predicate IsSpace(c: char) {
    var u := c as int;
    || 9 <= u <= 13 || 28 <= u <= 32 || u == 0x85 || u == 0xa0 || u == 0x1680
    || 0x2000 <= u <= 0x200a || u == 0x2028 || u == 0x2029 || u == 0x202f || u == 0x205f || u == 0x3000
  }

  /** `not text.strip()` */
  predicate Blank(text: string) {
    forall i :: 0 <= i < |text| ==> IsSpace(text[i])
  }
}
