/**
 * The payload codec of the cache: what `save` writes into the `data` column
 * (`JSON.stringify`, or the empty text for an undefined value) and what `get`
 * reads back from it (`JSON.parse`).
 *
 * JSON itself is not modelled. A stored text is a free representation of the
 * value it was produced from, so decoding what was encoded gives the value back.
 */
module Codec {

  /** A value passed to `save`: JavaScript `undefined`, or a JSON-serialisable value. */
  datatype Datum<V> = Undefined | Json(value: V)

  /** The text held in the `data` column: the empty string, or the serialisation of a value. */
  datatype Text<V> = Empty | Stringified(value: V)

  /** The outcome of `JSON.parse` on a stored text. */
  datatype Parsed<V> = Parsed(value: V) | SyntaxError

  /** The text `save` stores for a value: empty for `undefined`, the serialisation otherwise. */
  function Encode<V>(d: Datum<V>): (t: Text<V>)
  {
    match d
    case Undefined => Empty
    case Json(v) => Stringified(v)
  }

  /** `JSON.parse` as the source calls it: the empty text is not well-formed JSON. */
  function Parse<V>(t: Text<V>): (p: Parsed<V>)
  {
    match t
    case Empty => SyntaxError
    case Stringified(v) => Parsed(v)
  }

  /** The decoding the model uses: the empty text reads back as `undefined`. */
  function Decode<V>(t: Text<V>): (d: Datum<V>)
  {
    match t
    case Empty => Undefined
    case Stringified(v) => Json(v)
  }

  /** Decoding inverts encoding, for `undefined` as well as for serialised values. */
  lemma DecodeEncode<V>(d: Datum<V>)
    ensures Decode(Encode(d)) == d
  {
  }

  /** Encoding inverts decoding: every stored text is the encoding of what it decodes to. */
  lemma EncodeDecode<V>(t: Text<V>)
    ensures Encode(Decode(t)) == t
  {
  }

  /** `JSON.parse` fails exactly on the text stored for `undefined`, and agrees with Decode elsewhere. */
  lemma ParseFailsOnlyOnEmpty<V>(t: Text<V>)
    ensures Parse(t).SyntaxError? <==> t == Encode(Undefined)
    ensures Parse(t).Parsed? ==> Decode(t) == Json(Parse(t).value)
  {
  }
}
