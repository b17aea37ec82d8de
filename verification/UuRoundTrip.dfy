/** Encoding and decoding, one after the other (coreutils/uuencode.c and coreutils/uudecode.c). */
module UuRoundTrip {
  import opened Uuencode
  import opened Merging
  import opened Uudecode
  import opened Base64

  /** Encoding and then decoding gives every input back, in both formats. */
  method EncodeThenDecode(input: seq<Byte>, base64: bool) returns (r: Result)
    ensures r == Result(true, input)
  {
    hide Body, Stduu, Run;
    var out := Write(input, base64);
    var text := out[1..];
    assert text == Body(input, base64);
    if base64 {
      Base64RoundTrip(input);
      r := ReadBase64(text);
    } else {
      StdRoundTrip(input);
      ghost var lines, e;
      r, lines, e := ReadStduu(text);
    }
  }
}
