/**
  UTF-8 as an abstract text codec. The vault only relies on two facts about
  Python's `str.encode('utf-8')` / `bytes.decode('utf-8')`: decoding an
  encoding gives the text back, and whatever decodes successfully is the
  encoding of what it decodes to (the codec rejects overlong forms and
  surrogates). The byte-level rules of UTF-8 are not part of this model.
*/
module Utf8 {
  import opened Wrappers
  import opened Base64

  /** `encode` is total (every Dafny string is a sequence of Unicode scalar
      values, so nothing is unencodable); `decode` fails on invalid bytes. */
  datatype Codec = Codec(encode: string -> seq<byte>, decode: seq<byte> -> Option<string>)

  /** The laws of a faithful UTF-8 codec. */
  ghost predicate Lawful(c: Codec) {
    && c.encode([]) == []
    && (forall s: string :: c.decode(c.encode(s)) == Some(s))
    && (forall bs: seq<byte> :: c.decode(bs).Some? ==> c.encode(c.decode(bs).value) == bs)
  }

  /** A lawful codec encodes only the empty text to no bytes. */
  lemma EncodeEmptyOnlyForEmpty(c: Codec, s: string)
    requires Lawful(c)
    ensures c.encode(s) == [] <==> s == []
  {
    if c.encode(s) == [] {
      assert c.decode(c.encode(s)) == Some(s);
      assert c.decode(c.encode([])) == Some([]);
    }
  }

  /** A lawful codec encodes distinct texts to distinct bytes. */
  lemma EncodeInjective(c: Codec, s: string, t: string)
    requires Lawful(c)
    ensures c.encode(s) == c.encode(t) ==> s == t
  {
    assert c.decode(c.encode(s)) == Some(s);
    assert c.decode(c.encode(t)) == Some(t);
  }
}
