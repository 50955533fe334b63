/** The serialised form of the metadata mapping, the part `pickle.dump` and
    `pickle.loads` play in `Meta`.  The format is self-delimiting: a decoder stops at
    the end marker and ignores whatever bytes follow it. */
module Codec {
  import opened Bytes
  import opened Results
  import opened Dicts
  import opened Seqs

  /** Opcodes, after the letters pickle uses for the same jobs. */
  const EMPTY_DICT: byte := 0x7D  // '}'
  const SETITEM: byte := 0x73     // 's'
  const STOP: byte := 0x2E        // '.'
  const NONE: byte := 0x4E        // 'N'
  const FALSE: byte := 0x89
  const TRUE: byte := 0x88
  const INT: byte := 0x49         // 'I'
  const UNICODE: byte := 0x58     // 'X'
  const BYTES: byte := 0x42       // 'B'

  /** A decoded value and the input left after it. */
  datatype Parsed<T> = Parsed(value: T, rest: seq<byte>)

  // ---------------------------------------------------------------- numbers

  /** A natural number in base 128, least significant group first; every byte but
      the last has its high bit set. */
  function EncodeNat(n: nat): (r: seq<byte>)
    ensures |r| > 0
  {
    if n < 128 then [n as byte] else [(128 + n % 128) as byte] + EncodeNat(n / 128)
  }

  function DecodeNat(s: seq<byte>): (r: Option<Parsed<nat>>)
    ensures r.Some? ==> |r.value.rest| < |s| && r.value.rest == s[|s| - |r.value.rest|..]
  {
    if |s| == 0 then None
    else if s[0] < 128 then Some(Parsed(s[0] as nat, s[1..]))
    else match DecodeNat(s[1..])
      case None => None
      case Some(p) => Some(Parsed((s[0] as nat - 128) + 128 * p.value, p.rest))
  }

  /** A continuation byte adds its low seven bits to 128 times the rest. */
  lemma DecodeNatStep(s: seq<byte>, p: Parsed<nat>)
    requires |s| > 0 && s[0] >= 128 && DecodeNat(s[1..]) == Some(p)
    ensures DecodeNat(s).Some? && DecodeNat(s).value.rest == p.rest
    ensures DecodeNat(s).value.value == (s[0] as nat - 128) + 128 * p.value
  {
  }

  lemma {:induction false} DecodeEncodeNat(n: nat, tail: seq<byte>)
    ensures DecodeNat(EncodeNat(n) + tail) == Some(Parsed(n, tail))
  {
    if n >= 128 {
      var q: nat := n / 128;
      var b := (128 + n % 128) as byte;
      var s := EncodeNat(n) + tail;
      DecodeEncodeNat(q, tail);
      assert EncodeNat(n) == [b] + EncodeNat(q);
      Assoc([b], EncodeNat(q), tail);
      assert s[1..] == EncodeNat(q) + tail;
      DecodeNatStep(s, Parsed(q, tail));
      assert (b as nat - 128) + 128 * q == n;
    } else {
      assert (EncodeNat(n) + tail)[1..] == tail;
    }
  }

  /** An integer folded onto the naturals: 0, -1, 1, -2, 2, ... become 0, 1, 2, 3, 4, ... */
  function EncodeInt(i: int): seq<byte> {
    EncodeNat(if i >= 0 then 2 * i else -2 * i - 1)
  }

  function DecodeInt(s: seq<byte>): (r: Option<Parsed<int>>)
    ensures r.Some? ==> |r.value.rest| < |s| && r.value.rest == s[|s| - |r.value.rest|..]
  {
    match DecodeNat(s)
    case None => None
    case Some(p) => Some(Parsed(if p.value % 2 == 0 then p.value / 2 else -(p.value + 1) / 2, p.rest))
  }

  lemma DecodeEncodeInt(i: int, tail: seq<byte>)
    ensures DecodeInt(EncodeInt(i) + tail) == Some(Parsed(i, tail))
  {
    DecodeEncodeNat(if i >= 0 then 2 * i else -2 * i - 1, tail);
  }

  // ---------------------------------------------------------------- strings and bytes

  /** A byte string: its length, then its bytes. */
  function EncodeBlob(bs: seq<byte>): seq<byte> {
    EncodeNat(|bs|) + bs
  }

  function DecodeBlob(s: seq<byte>): (r: Option<Parsed<seq<byte>>>)
    ensures r.Some? ==> |r.value.rest| < |s| && r.value.rest == s[|s| - |r.value.rest|..]
  {
    match DecodeNat(s)
    case None => None
    case Some(p) =>
      if |p.rest| < p.value then None
      else Some(Parsed(p.rest[..p.value], p.rest[p.value..]))
  }

  lemma DecodeEncodeBlob(bs: seq<byte>, tail: seq<byte>)
    ensures DecodeBlob(EncodeBlob(bs) + tail) == Some(Parsed(bs, tail))
  {
    assert EncodeBlob(bs) + tail == EncodeNat(|bs|) + (bs + tail);
    DecodeEncodeNat(|bs|, bs + tail);
    assert (bs + tail)[..|bs|] == bs;
    assert (bs + tail)[|bs|..] == tail;
  }

  /** Whether `n` is the code point of a Unicode scalar value, that is, of a `char`. */
  predicate IsScalar(n: nat) {
    n < 0xD800 || (0xE000 <= n < 0x11_0000)
  }

  function EncodeChars(s: string): seq<byte> {
    if s == [] then [] else EncodeNat(s[0] as int) + EncodeChars(s[1..])
  }

  /** Reads `n` code points; fails on a number that is no Unicode scalar value. */
  function DecodeChars(s: seq<byte>, n: nat): (r: Option<Parsed<string>>)
    ensures r.Some? ==> |r.value.rest| <= |s| && r.value.rest == s[|s| - |r.value.rest|..]
  {
    if n == 0 then Some(Parsed([], s))
    else match DecodeNat(s)
      case None => None
      case Some(p) =>
        if !IsScalar(p.value) then None
        else match DecodeChars(p.rest, n - 1)
          case None => None
          case Some(q) => Some(Parsed([p.value as char] + q.value, q.rest))
  }

  /** One code point that decodes to a scalar value is the next character. */
  lemma DecodeCharsStep(s: seq<byte>, n: nat, p: Parsed<nat>, q: Parsed<string>)
    requires n > 0 && DecodeNat(s) == Some(p) && IsScalar(p.value)
    requires DecodeChars(p.rest, n - 1) == Some(q)
    ensures DecodeChars(s, n) == Some(Parsed([p.value as char] + q.value, q.rest))
  {
  }

  lemma {:induction false} DecodeEncodeChars(s: string, tail: seq<byte>)
    ensures DecodeChars(EncodeChars(s) + tail, |s|) == Some(Parsed(s, tail))
  {
    if s != [] {
      var c: nat := s[0] as int;
      var encoded, more := EncodeChars(s[1..]), EncodeChars(s[1..]) + tail;
      assert EncodeChars(s) == EncodeNat(c) + encoded;
      Assoc(EncodeNat(c), encoded, tail);
      DecodeEncodeNat(c, more);
      DecodeEncodeChars(s[1..], tail);
      assert IsScalar(c) && c as char == s[0];
      DecodeCharsStep(EncodeChars(s) + tail, |s|, Parsed(c, more), Parsed(s[1..], tail));
      ConsTail(s);
    }
  }

  /** A string: its number of characters, then each code point. */
  function EncodeText(s: string): seq<byte> {
    EncodeNat(|s|) + EncodeChars(s)
  }

  function DecodeText(s: seq<byte>): (r: Option<Parsed<string>>)
    ensures r.Some? ==> |r.value.rest| < |s| && r.value.rest == s[|s| - |r.value.rest|..]
  {
    match DecodeNat(s)
    case None => None
    case Some(p) => DecodeChars(p.rest, p.value)
  }

  lemma DecodeEncodeText(s: string, tail: seq<byte>)
    ensures DecodeText(EncodeText(s) + tail) == Some(Parsed(s, tail))
  {
    assert EncodeText(s) + tail == EncodeNat(|s|) + (EncodeChars(s) + tail);
    DecodeEncodeNat(|s|, EncodeChars(s) + tail);
    DecodeEncodeChars(s, tail);
  }

  // ---------------------------------------------------------------- values

  function EncodeValue(v: Value): seq<byte> {
    match v
    case Nil => [NONE]
    case Boolean(b) => [if b then TRUE else FALSE]
    case Integer(i) => [INT] + EncodeInt(i)
    case Text(s) => [UNICODE] + EncodeText(s)
    case Blob(bs) => [BYTES] + EncodeBlob(bs)
  }

  function DecodeValue(s: seq<byte>): (r: Option<Parsed<Value>>)
    ensures r.Some? ==> |r.value.rest| < |s| && r.value.rest == s[|s| - |r.value.rest|..]
  {
    if |s| == 0 then None
    else
      var r := DecodeTagged(s[0], s[1..]);
      if r.Some? then SuffixOfTail(s, r.value.rest); r else r
  }

  /** The value a tag byte introduces, read from the bytes after the tag. */
  function DecodeTagged(tag: byte, body: seq<byte>): (r: Option<Parsed<Value>>)
    ensures r.Some? ==> |r.value.rest| <= |body| && r.value.rest == body[|body| - |r.value.rest|..]
  {
    if tag == NONE then Some(Parsed(Nil, body))
    else if tag == TRUE then Some(Parsed(Boolean(true), body))
    else if tag == FALSE then Some(Parsed(Boolean(false), body))
    else if tag == INT then
      match DecodeInt(body)
      case None => None
      case Some(p) => Some(Parsed(Integer(p.value), p.rest))
    else if tag == UNICODE then
      match DecodeText(body)
      case None => None
      case Some(p) => Some(Parsed(Text(p.value), p.rest))
    else if tag == BYTES then
      match DecodeBlob(body)
      case None => None
      case Some(p) => Some(Parsed(Blob(p.value), p.rest))
    else None
  }

  /** A suffix of the input after its first byte is a suffix of the input. */
  lemma SuffixOfTail(s: seq<byte>, t: seq<byte>)
    requires |s| > 0 && |t| <= |s| - 1 && t == s[1..][|s| - 1 - |t|..]
    ensures t == s[|s| - |t|..]
  {
  }

  lemma DecodeEncodeValue(v: Value, tail: seq<byte>)
    ensures DecodeValue(EncodeValue(v) + tail) == Some(Parsed(v, tail))
  {
    match v
    case Nil => DecodeEncodeAtom(v, tail);
    case Boolean(_) => DecodeEncodeAtom(v, tail);
    case Integer(i) => DecodeEncodeInteger(i, tail);
    case Text(t) => DecodeEncodeTextValue(t, tail);
    case Blob(bs) => DecodeEncodeBlobValue(bs, tail);
  }

  lemma DecodeEncodeAtom(v: Value, tail: seq<byte>)
    requires v.Nil? || v.Boolean?
    ensures DecodeValue(EncodeValue(v) + tail) == Some(Parsed(v, tail))
  {
    assert (EncodeValue(v) + tail)[1..] == tail;
  }

  lemma DecodeEncodeInteger(i: int, tail: seq<byte>)
    ensures DecodeValue(EncodeValue(Integer(i)) + tail) == Some(Parsed(Integer(i), tail))
  {
    assert (EncodeValue(Integer(i)) + tail)[1..] == EncodeInt(i) + tail;
    DecodeEncodeInt(i, tail);
  }

  lemma DecodeEncodeTextValue(t: string, tail: seq<byte>)
    ensures DecodeValue(EncodeValue(Text(t)) + tail) == Some(Parsed(Text(t), tail))
  {
    assert (EncodeValue(Text(t)) + tail)[1..] == EncodeText(t) + tail;
    DecodeEncodeText(t, tail);
  }

  lemma DecodeEncodeBlobValue(bs: seq<byte>, tail: seq<byte>)
    ensures DecodeValue(EncodeValue(Blob(bs)) + tail) == Some(Parsed(Blob(bs), tail))
  {
    assert (EncodeValue(Blob(bs)) + tail)[1..] == EncodeBlob(bs) + tail;
    DecodeEncodeBlob(bs, tail);
  }

  // ---------------------------------------------------------------- the mapping

  function EncodeItems(es: Entries): seq<byte> {
    if es == [] then []
    else [SETITEM] + EncodeText(es[0].0) + EncodeValue(es[0].1) + EncodeItems(es[1..])
  }

  /** The whole mapping: an empty dict, one SETITEM per entry in order, then STOP. */
  function Encode(es: Entries): (r: seq<byte>)
    ensures |r| > 0 && r[0] == EMPTY_DICT
  {
    [EMPTY_DICT] + EncodeItems(es) + [STOP]
  }

  /** Replays SETITEM opcodes onto the dict built so far, as an unpickler does,
      until STOP. */
  function DecodeItems(s: seq<byte>, acc: Entries): (r: Option<Parsed<Entries>>)
    requires Distinct(acc)
    ensures r.Some? ==> Distinct(r.value.value)
    decreases |s|
  {
    if |s| == 0 then None
    else if s[0] == STOP then Some(Parsed(acc, s[1..]))
    else if s[0] != SETITEM then None
    else match DecodeText(s[1..])
      case None => None
      case Some(k) =>
        match DecodeValue(k.rest)
        case None => None
        case Some(v) => DecodeItems(v.rest, Assign(acc, k.value, v.value))
  }

  function Decode(s: seq<byte>): (r: Option<Parsed<Entries>>)
    ensures r.Some? ==> Distinct(r.value.value)
  {
    if |s| == 0 || s[0] != EMPTY_DICT then None else DecodeItems(s[1..], [])
  }

  /** Entries stay distinct when one more fresh key is appended. */
  lemma {:induction false} AppendFresh(acc: Entries, k: string, v: Value)
    requires Distinct(acc) && k !in ToMap(acc)
    ensures Distinct(acc + [(k, v)])
    ensures ToMap(acc + [(k, v)]) == ToMap(acc)[k := v]
  {
    assert Assign(acc, k, v) == acc + [(k, v)];
  }

  /** One SETITEM whose key and value decode hands the rest to the next step. */
  lemma {:induction false} DecodeItemsUnfold(s: seq<byte>, acc: Entries, k: Parsed<string>, v: Parsed<Value>)
    requires Distinct(acc) && |s| > 0 && s[0] == SETITEM
    requires DecodeText(s[1..]) == Some(k) && DecodeValue(k.rest) == Some(v)
    ensures DecodeItems(s, acc) == DecodeItems(v.rest, Assign(acc, k.value, v.value))
  {
  }

  /** One SETITEM of a key not yet present appends that entry to the dict. */
  lemma {:induction false} DecodeItemsStep(k: string, v: Value, more: seq<byte>, acc: Entries)
    requires Distinct(acc) && k !in ToMap(acc)
    ensures Distinct(acc + [(k, v)])
    ensures DecodeItems([SETITEM] + (EncodeText(k) + (EncodeValue(v) + more)), acc)
         == DecodeItems(more, acc + [(k, v)])
  {
    var s := [SETITEM] + (EncodeText(k) + (EncodeValue(v) + more));
    assert s[1..] == EncodeText(k) + (EncodeValue(v) + more);
    DecodeEncodeText(k, EncodeValue(v) + more);
    DecodeEncodeValue(v, more);
    DecodeItemsUnfold(s, acc, Parsed(k, EncodeValue(v) + more), Parsed(v, more));
    AppendFresh(acc, k, v);
  }

  lemma EncodeItemsCons(es: Entries, tail: seq<byte>)
    requires es != []
    ensures EncodeItems(es) + tail
         == [SETITEM] + (EncodeText(es[0].0) + (EncodeValue(es[0].1) + (EncodeItems(es[1..]) + tail)))
  {
    var a, b, c, d := [SETITEM], EncodeText(es[0].0), EncodeValue(es[0].1), EncodeItems(es[1..]);
    assert EncodeItems(es) == a + b + c + d;
    Assoc(a + b + c, d, tail);
    Assoc(a + b, c, d + tail);
    Assoc(a, b, c + (d + tail));
  }

  /** Keys of the remaining entries stay clear of the dict once the first entry
      has been moved into it. */
  lemma {:induction false} RestStaysFresh(es: Entries, acc: Entries)
    requires es != [] && Distinct(acc) && Distinct(es)
    requires forall x :: x in ToMap(es) ==> x !in ToMap(acc)
    ensures Distinct(acc + [es[0]])
    ensures forall x :: x in ToMap(es[1..]) ==> x !in ToMap(acc + [es[0]])
  {
    var k, v := es[0].0, es[0].1;
    assert k in ToMap(es);
    AppendFresh(acc, k, v);
    assert es[0] == (k, v);
    forall x | x in ToMap(es[1..]) ensures x !in ToMap(acc + [(k, v)]) {
      assert x != k;
      assert x in ToMap(es);
    }
  }

  /** Moving the first entry into the dict keeps the whole sequence. */
  lemma EntriesShift(es: Entries, acc: Entries)
    requires es != []
    ensures (acc + [es[0]]) + es[1..] == acc + es
  {
    assert [es[0]] + es[1..] == es;
  }

  lemma {:induction false} DecodeEncodeItems(es: Entries, acc: Entries, tail: seq<byte>)
    requires Distinct(acc) && Distinct(es)
    requires forall x :: x in ToMap(es) ==> x !in ToMap(acc)
    ensures DecodeItems(EncodeItems(es) + ([STOP] + tail), acc) == Some(Parsed(acc + es, tail))
  {
    if es == [] {
      assert EncodeItems(es) + ([STOP] + tail) == [STOP] + tail;
      assert ([STOP] + tail)[1..] == tail;
      assert acc + es == acc;
    } else {
      var k, v := es[0].0, es[0].1;
      var more := EncodeItems(es[1..]) + ([STOP] + tail);
      EncodeItemsCons(es, [STOP] + tail);
      RestStaysFresh(es, acc);
      DecodeItemsStep(k, v, more, acc);
      var acc' := acc + [es[0]];
      assert DecodeItems(EncodeItems(es) + ([STOP] + tail), acc) == DecodeItems(more, acc');
      DecodeEncodeItems(es[1..], acc', tail);
      EntriesShift(es, acc);
    }
  }

  /** The round trip: decoding an encoded mapping, whatever bytes follow it,
      gives back exactly the mapping and leaves those bytes. */
  lemma DecodeEncode(es: Entries, tail: seq<byte>)
    requires Distinct(es)
    ensures Decode(Encode(es) + tail) == Some(Parsed(es, tail))
  {
    var body := EncodeItems(es) + ([STOP] + tail);
    Assoc([EMPTY_DICT] + EncodeItems(es), [STOP], tail);
    Assoc([EMPTY_DICT], EncodeItems(es), [STOP] + tail);
    assert Encode(es) + tail == [EMPTY_DICT] + body;
    assert ([EMPTY_DICT] + body)[1..] == body;
    DecodeEncodeItems(es, [], tail);
    assert [] + es == es;
  }
}
