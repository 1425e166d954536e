/**
  The at-rest obfuscation used for every stored password, for the master
  secret and for the whole data file: Base64 of the UTF-8 bytes of the text.
  There is no key, so this is reversible by anyone; `Decrypt` fails closed by
  answering the empty text for anything it cannot decode.
*/
module Encoder {
  import opened Wrappers
  import Base64
  import opened Utf8

  /** Encodes `text`: only alphabet characters and trailing `=` padding, four
      characters for every started group of three UTF-8 bytes. */
  function Encrypt(c: Codec, text: string): (t: string)
    ensures |t| == 4 * ((|c.encode(text)| + 2) / 3)
    ensures |t| % 4 == 0
    ensures forall i :: 0 <= i < |t| ==> Base64.IsAlphabetChar(t[i]) || t[i] == Base64.Pad
  {
    Base64.Encode(c.encode(text))
  }

  /** Decodes `t`; a malformed Base64 string, or bytes that are not valid
      UTF-8, give the empty text instead of an error. */
  function Decrypt(c: Codec, t: string): (text: string)
    ensures Base64.Decode(t).None? ==> text == ""
    ensures Base64.Decode(t).Some? && c.decode(Base64.Decode(t).value).None? ==> text == ""
  {
    match Base64.Decode(t)
    case None => ""
    case Some(bytes) => c.decode(bytes).GetOr("")
  }

  /** Round trip, for every text including the empty one. */
  lemma DecryptEncrypt(c: Codec, s: string)
    requires Lawful(c)
    ensures Decrypt(c, Encrypt(c, s)) == s
  {
    Base64.DecodeEncode(c.encode(s));
  }

  /** A non-empty decoding names its encoding exactly: `Decrypt` accepts only
      the one string that `Encrypt` produces for that text. */
  lemma EncryptDecrypt(c: Codec, t: string)
    requires Lawful(c)
    ensures Decrypt(c, t) != "" ==> Encrypt(c, Decrypt(c, t)) == t
  {
    if Decrypt(c, t) != "" {
      var bytes := Base64.Decode(t).value;
      Base64.EncodeDecode(t);
      assert c.decode(bytes).Some?;
    }
  }

  /** For a non-empty text `s`, `t` decodes to `s` if and only if `t` is the
      encoding of `s`. */
  lemma DecryptIsExactlyEncrypt(c: Codec, t: string, s: string)
    requires Lawful(c)
    requires s != ""
    ensures Decrypt(c, t) == s <==> t == Encrypt(c, s)
  {
    EncryptDecrypt(c, t);
    DecryptEncrypt(c, s);
  }

  /** Distinct texts have distinct encodings. */
  lemma EncryptInjective(c: Codec, s: string, u: string)
    requires Lawful(c)
    ensures Encrypt(c, s) == Encrypt(c, u) ==> s == u
  {
    DecryptEncrypt(c, s);
    DecryptEncrypt(c, u);
  }

  /** Only the empty text encodes to the empty string. */
  lemma EncryptEmpty(c: Codec, s: string)
    requires Lawful(c)
    ensures Encrypt(c, s) == "" <==> s == ""
  {
    EncodeEmptyOnlyForEmpty(c, s);
  }

  /** The empty string decodes to the empty text; so does any string whose
      length is not a multiple of four. */
  lemma DecryptShortOrEmpty(c: Codec, t: string)
    requires Lawful(c)
    ensures |t| % 4 != 0 ==> Decrypt(c, t) == ""
    ensures Decrypt(c, "") == ""
  {
    assert c.decode(c.encode([])) == Some([]);
  }
}
