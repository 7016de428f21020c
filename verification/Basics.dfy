/** Result types, bytes and hexadecimal text shared by every other module. */
module Basics {

  datatype Option<+T> = None | Some(value: T)

  /** An exception is the `Err` branch; the error type keeps the exception class. */
  datatype Result<+T, +E> = Ok(value: T) | Err(error: E) {
    predicate IsFailure() {
      Err?
    }

    function PropagateFailure<U>(): Result<U, E>
      requires Err?
    {
      Err(error)
    }

    function Extract(): T
      requires Ok?
    {
      value
    }
  }

  type Byte = b: int | 0 <= b < 256
  type Bytes = seq<Byte>

  predicate IsLowerHexDigit(c: char) {
    '0' <= c <= '9' || 'a' <= c <= 'f'
  }

  lemma HexDigitsAre(c: char)
    ensures IsLowerHexDigit(c) <==> c in "0123456789abcdef"
  {
    var t := "0123456789abcdef";
    assert forall i | 0 <= i < 10 :: t[i] == (48 + i) as char;
    assert forall i | 10 <= i < 16 :: t[i] == (87 + i) as char;
    if '0' <= c <= '9' {
      assert c == t[c as int - 48];
    } else if 'a' <= c <= 'f' {
      assert c == t[c as int - 87];
    }
  }

  /** The regular expression `[0-9a-f]{n}` matched against the whole text. */
  predicate IsLowerHex(s: string, n: nat) {
    |s| == n && forall i | 0 <= i < |s| :: IsLowerHexDigit(s[i])
  }
}
