/** Shared vocabulary: optional values, results, and the fixed-width
    integers the modelled programs use on the wire and in memory, and
    Rust's notion of a whitespace character. */
module Common {

  datatype Option<+T> = None | Some(value: T)

  datatype Result<+T, +E> = Ok(value: T) | Err(error: E)

  type byte = x: int | 0 <= x < 0x100
  type u16 = x: int | 0 <= x < 0x1_0000
  type u32 = x: int | 0 <= x < 0x1_0000_0000
  type i32 = x: int | -0x8000_0000 <= x < 0x8000_0000
  type i64 = x: int | -0x8000_0000_0000_0000 <= x < 0x8000_0000_0000_0000
  type u64 = x: int | 0 <= x < 0x1_0000_0000_0000_0000

  const U16_MAX: int := 0xFFFF
  const U32_MAX: int := 0xFFFF_FFFF

  /** `char::is_whitespace`: the Unicode White_Space characters. */
  predicate IsWhitespace(c: char) {
    || '\t' <= c <= '\r' || c == ' ' || c == '\U{85}' || c == '\U{A0}'
    || c == '\U{1680}' || '\U{2000}' <= c <= '\U{200A}' || c == '\U{2028}'
    || c == '\U{2029}' || c == '\U{202F}' || c == '\U{205F}' || c == '\U{3000}'
  }
}
