/** The CFG-VALSET builder, `gnss_protocols/src/ubx_cfg_builder.cpp`, and its key-directed decoding. */
module UbxCfgBuilder {
  import opened Bits
  import opened Framing
  import opened UbxFramer
  import opened UbxStream

  datatype Layer = Ram | Bbr | Flash | Default

  datatype CfgTransaction = NoTransaction | StartTransaction | Ongoing | ApplyTransaction

  datatype ValueType = Boolean | U1 | U2 | U4 | I1 | I2 | I4

  type uint32 = x: int | 0 <= x < 0x1_0000_0000
  type uint64 = x: int | 0 <= x < 0x1_0000_0000_0000_0000

  datatype Value = Value(valueType: ValueType, raw: uint64)

  datatype KeyValue = KeyValue(key: uint32, value: Value)

  datatype BuilderStatus = InvalidArgument | SizeMismatch | TooManyItems

  datatype BuilderResult = Built(payload: seq<byte>, frame: seq<byte>) | Refused(status: BuilderStatus)

  const MAX_ITEMS := 64
  const CLASS_CFG: byte := 0x06
  const ID_VALSET: byte := 0x8A

  function EncodedSize(t: ValueType): (n: nat)
    ensures n == 1 || n == 2 || n == 4
  {
    match t
    case Boolean => 1 case U1 => 1 case I1 => 1
    case U2 => 2 case I2 => 2
    case U4 => 4 case I4 => 4
  }

  function KeySizeCode(key: uint32): nat {
    key / 0x1000_0000 % 8
  }

  predicate DoesValueTypeMatchKey(key: uint32, t: ValueType) {
    match t
    case Boolean => KeySizeCode(key) == 1
    case U1 => KeySizeCode(key) == 2 case I1 => KeySizeCode(key) == 2
    case U2 => KeySizeCode(key) == 3 case I2 => KeySizeCode(key) == 3
    case U4 => KeySizeCode(key) == 4 case I4 => KeySizeCode(key) == 4
  }

  /** The lowest `size` bytes of a number, least significant first. */
  function LittleEndian(v: nat, size: nat): (bytes: seq<byte>)
    ensures |bytes| == size
  {
    if size == 0 then [] else [v % 256] + LittleEndian(v / 256, size - 1)
  }

  function ReadLittleEndian(bytes: seq<byte>): nat {
    if bytes == [] then 0 else bytes[0] + 256 * ReadLittleEndian(bytes[1..])
  }

  /** How many values fit into so many bytes. */
  function Span(size: nat): (n: nat)
    ensures n > 0
  {
    if size == 0 then 1 else 256 * Span(size - 1)
  }

  lemma {:induction false} ReadBack(v: nat, size: nat)
    ensures ReadLittleEndian(LittleEndian(v, size)) == v % Span(size)
  {
    if size > 0 {
      ReadBack(v / 256, size - 1);
      SplitModulo(v, Span(size - 1));
    }
  }

  lemma SplitModulo(v: nat, m: nat)
    requires m > 0
    ensures v % 256 + 256 * (v / 256 % m) == v % (256 * m)
  {
    var q, low := v / 256, v % 256;
    var a, b := q / m, q % m;
    assert q == m * a + b;
    assert v == 256 * q + low == (256 * m) * a + (256 * b + low);
    assert 256 * b + low < 256 * m;
    ModuloUnique(v, 256 * m, a, 256 * b + low);
  }

  lemma ModuloUnique(v: nat, m: nat, a: nat, r: nat)
    requires 0 <= r < m && v == m * a + r
    ensures v % m == r
  {
    var d := v / m;
    assert v == m * d + v % m;
    if d < a {
      ProductMonotone(m, d + 1, a);
      assert false;
    } else if a < d {
      ProductMonotone(m, a + 1, d);
      assert false;
    }
  }

  lemma ProductMonotone(m: nat, x: nat, y: nat)
    requires x <= y
    ensures m * x <= m * y
  {
  }

  function EncodeItem(kv: KeyValue): seq<byte> {
    LittleEndian(kv.key, 4) + LittleEndian(kv.value.raw, EncodedSize(kv.value.valueType))
  }

  function EncodeItems(items: seq<KeyValue>): seq<byte> {
    if items == [] then [] else EncodeItems(items[..|items| - 1]) + EncodeItem(items[|items| - 1])
  }

  function LayerMask(layers: seq<Layer>): byte {
    (if Ram in layers then 1 else 0) + (if Bbr in layers then 2 else 0) + (if Flash in layers then 4 else 0)
  }

  /** Setting one bit of a mask. */
  function SetBit(mask: byte, bit: byte): nat
    requires bit > 0
  {
    if mask / bit % 2 == 1 then mask else mask + bit as nat
  }

  method BuildValsetLayerMask(layers: seq<Layer>) returns (mask: byte)
    ensures mask == LayerMask(layers)
  {
    mask := 0;
    for i := 0 to |layers|
      invariant mask == LayerMask(layers[..i])
    {
      assert layers[..i + 1] == layers[..i] + [layers[i]];
      match layers[i] {
        case Ram => mask := SetBit(mask, 1);
        case Bbr => mask := SetBit(mask, 2);
        case Flash => mask := SetBit(mask, 4);
        case Default =>
      }
    }
    assert layers[..|layers|] == layers;
  }

  function TransactionCode(t: CfgTransaction): byte {
    match t case NoTransaction => 0 case StartTransaction => 1 case Ongoing => 2 case ApplyTransaction => 3
  }

  predicate AllMatch(items: seq<KeyValue>) {
    forall i :: 0 <= i < |items| ==> DoesValueTypeMatchKey(items[i].key, items[i].value.valueType)
  }

  function ValsetPayload(layers: seq<Layer>, items: seq<KeyValue>, transaction: CfgTransaction): seq<byte> {
    [0x01, LayerMask(layers), TransactionCode(transaction), 0x00] + EncodeItems(items)
  }

  method BuildUbxCfgValsetFrame(layers: seq<Layer>, items: seq<KeyValue>, transaction: CfgTransaction)
    returns (result: BuilderResult)
    ensures result == if |items| > MAX_ITEMS then Refused(TooManyItems)
                      else if LayerMask(layers) == 0 then Refused(InvalidArgument)
                      else if !AllMatch(items) then Refused(SizeMismatch)
                      else
                        var payload := ValsetPayload(layers, items, transaction);
                        Built(payload, BuildUbxFrame(Message(CLASS_CFG, ID_VALSET, payload)))
  {
    hide LayerMask, DoesValueTypeMatchKey, BuildUbxFrame, LittleEndian, TransactionCode;
    if |items| > MAX_ITEMS {
      return Refused(TooManyItems);
    }
    var mask := BuildValsetLayerMask(layers);
    if mask == 0 {
      return Refused(InvalidArgument);
    }
    var payload := [0x01, mask, TransactionCode(transaction), 0x00];
    for i := 0 to |items|
      invariant AllMatch(items[..i])
      invariant payload == [0x01, mask, TransactionCode(transaction), 0x00] + EncodeItems(items[..i])
    {
      assert items[..i + 1][..i] == items[..i];
      if !DoesValueTypeMatchKey(items[i].key, items[i].value.valueType) {
        return Refused(SizeMismatch);
      }
      ghost var before := payload;
      payload := payload + LittleEndian(items[i].key, 4);
      payload := payload + LittleEndian(items[i].value.raw, EncodedSize(items[i].value.valueType));
      assert payload == before + EncodeItem(items[i]);
    }
    assert items[..|items|] == items;
    return Built(payload, BuildUbxFrame(Message(CLASS_CFG, ID_VALSET, payload)));
  }

  // ----- Decoding --------------------------------------------------------------------------

  /** How many value bytes follow a key, read from the key alone. */
  function SizeForCode(code: nat): Option<nat> {
    if code == 1 || code == 2 then Some(1)
    else if code == 3 then Some(2)
    else if code == 4 then Some(4)
    else None
  }

  datatype Item = Item(key: nat, raw: nat)

  /** A receiver's reading of the item list: keys and values only, no types. */
  function DecodeItems(bytes: seq<byte>): Option<seq<Item>>
    decreases |bytes|
  {
    if bytes == [] then Some([])
    else if |bytes| < 4 then None
    else
      var key := ReadLittleEndian(bytes[..4]);
      match SizeForCode(key / 0x1000_0000 % 8)
      case None => None
      case Some(size) =>
        if |bytes| < 4 + size then None
        else match DecodeItems(bytes[4 + size..])
          case None => None
          case Some(rest) => Some([Item(key, ReadLittleEndian(bytes[4..4 + size]))] + rest)
  }

  datatype Valset = Valset(mask: byte, transaction: byte, items: seq<Item>)

  function DecodeValset(payload: seq<byte>): Option<Valset> {
    if |payload| < 4 || payload[0] != 0x01 then None
    else match DecodeItems(payload[4..])
      case None => None
      case Some(items) => Some(Valset(payload[1], payload[2], items))
  }

  /** What an item carries: the key, and the value cut to the width of its type. */
  function Carried(kv: KeyValue): Item {
    Item(kv.key, kv.value.raw % Span(EncodedSize(kv.value.valueType)))
  }

  function CarriedAll(items: seq<KeyValue>): (c: seq<Item>)
    ensures |c| == |items| && forall i :: 0 <= i < |items| ==> c[i] == Carried(items[i])
  {
    seq(|items|, i requires 0 <= i < |items| => Carried(items[i]))
  }

  /** The same list of bytes, taken from the front. */
  lemma {:induction false} EncodeFromFront(items: seq<KeyValue>)
    requires items != []
    ensures EncodeItems(items) == EncodeItem(items[0]) + EncodeItems(items[1..])
    decreases |items|
  {
    var n := |items| - 1;
    hide EncodeItem;
    if n == 0 {
      assert items[..0] == [] && items[1..] == [];
    } else {
      EncodeFromFront(items[..n]);
      assert items[..n][1..] == items[1..][..n - 1];
      assert items[1..][n - 1] == items[n];
      AppendAssociates(EncodeItem(items[0]), EncodeItems(items[1..][..n - 1]), EncodeItem(items[n]));
    }
  }

  lemma AppendAssociates(a: seq<byte>, b: seq<byte>, c: seq<byte>)
    ensures (a + b) + c == a + (b + c)
  {
  }

  lemma SpanValues()
    ensures Span(1) == 0x100 && Span(2) == 0x1_0000 && Span(4) == 0x1_0000_0000
  {
    assert Span(2) == 256 * Span(1) && Span(3) == 256 * Span(2) && Span(4) == 256 * Span(3);
  }

  /** One item at the front of the list is decoded by its key alone, whatever follows. */
  lemma DecodeOne(kv: KeyValue, rest: seq<byte>)
    requires DoesValueTypeMatchKey(kv.key, kv.value.valueType)
    ensures DecodeItems(EncodeItem(kv) + rest)
         == match DecodeItems(rest) case None => None case Some(items) => Some([Carried(kv)] + items)
  {
    var size := EncodedSize(kv.value.valueType);
    var bytes := EncodeItem(kv) + rest;
    ReadBack(kv.key, 4);
    ReadBack(kv.value.raw, size);
    SpanValues();
    hide LittleEndian, ReadLittleEndian, Span;
    assert bytes[..4] == LittleEndian(kv.key, 4);
    assert bytes[4..4 + size] == LittleEndian(kv.value.raw, size);
    assert bytes[4 + size..] == rest;
    assert ReadLittleEndian(bytes[..4]) == kv.key;
  }

  lemma CarriedFirst(items: seq<KeyValue>)
    requires items != []
    ensures CarriedAll(items) == [Carried(items[0])] + CarriedAll(items[1..])
  {
    hide Carried, CarriedAll;
  }

  lemma {:induction false} DecodeAll(items: seq<KeyValue>)
    requires AllMatch(items)
    ensures DecodeItems(EncodeItems(items)) == Some(CarriedAll(items))
    decreases |items|
  {
    if items != [] {
      EncodeFromFront(items);
      DecodeAll(items[1..]);
      DecodeOne(items[0], EncodeItems(items[1..]));
      hide *;
      CarriedFirst(items);
    } else {
      assert CarriedAll(items) == [];
    }
  }

  lemma {:induction false} EncodedLength(items: seq<KeyValue>)
    ensures |EncodeItems(items)| <= 8 * |items|
  {
    if items != [] {
      EncodedLength(items[..|items| - 1]);
    }
  }

  /**
   The wire round trip: the frame of every accepted request, framed byte by byte, is reported once,
   valid and as CFG-VALSET; its payload, decoded by the keys alone, is the layer mask, the
   transaction, and every key and value in order.
   */
  lemma ValsetRoundTrip(
      max: nat, layers: seq<Layer>, items: seq<KeyValue>, transaction: CfgTransaction, input: seq<Stamped>)
    requires |items| <= MAX_ITEMS && AllMatch(items)
    requires var payload := ValsetPayload(layers, items, transaction);
             && Values(input) == BuildUbxFrame(Message(CLASS_CFG, ID_VALSET, payload)) && |input| <= max
    ensures var (held, frames) := Run(FramerFor(max), [], input);
            && held == [] && |frames| == 1 && frames[0].status == Valid
            && frames[0].classId == CLASS_CFG && frames[0].messageId == ID_VALSET
            && DecodeValset(frames[0].payload)
               == Some(Valset(LayerMask(layers), TransactionCode(transaction), CarriedAll(items)))
  {
    var payload := ValsetPayload(layers, items, transaction);
    var m := Message(CLASS_CFG, ID_VALSET, payload);
    EncodedLength(items);
    PayloadDecodes(layers, items, transaction);
    BuiltFrameReports(m, input[0].ts);
    hide EncodeItems, ValsetPayload, DecodeValset, BuildUbxFrame, FrameOf;
    OneBuiltFrame(max, m, input);
  }

  lemma PayloadDecodes(layers: seq<Layer>, items: seq<KeyValue>, transaction: CfgTransaction)
    requires AllMatch(items)
    ensures var payload := ValsetPayload(layers, items, transaction);
            && |payload| == 4 + |EncodeItems(items)|
            && DecodeValset(payload)
               == Some(Valset(LayerMask(layers), TransactionCode(transaction), CarriedAll(items)))
  {
    hide EncodeItems;
    assert ValsetPayload(layers, items, transaction)[4..] == EncodeItems(items);
    DecodeAll(items);
  }

  /** The default framer limit of 4096 bytes carries every accepted request. */
  lemma EveryValsetFits(layers: seq<Layer>, items: seq<KeyValue>, transaction: CfgTransaction)
    requires |items| <= MAX_ITEMS
    ensures |BuildUbxFrame(Message(CLASS_CFG, ID_VALSET, ValsetPayload(layers, items, transaction)))| <= 524
  {
    EncodedLength(items);
  }

  /** Two requests with the same bytes ask for the same layers, keys and values. */
  lemma PayloadDeterminesRequest(
      layers: seq<Layer>, items: seq<KeyValue>, transaction: CfgTransaction,
      layers': seq<Layer>, items': seq<KeyValue>, transaction': CfgTransaction)
    requires AllMatch(items) && AllMatch(items')
    requires ValsetPayload(layers, items, transaction) == ValsetPayload(layers', items', transaction')
    ensures CarriedAll(items) == CarriedAll(items') && transaction == transaction'
    ensures forall l :: l != Default ==> (l in layers <==> l in layers')
  {
    var p := ValsetPayload(layers, items, transaction);
    assert p[4..] == EncodeItems(items) && p[4..] == EncodeItems(items');
    DecodeAll(items);
    DecodeAll(items');
    assert p[1] == LayerMask(layers) == LayerMask(layers');
    assert p[2] == TransactionCode(transaction) == TransactionCode(transaction');
  }

  /** A signed value as the `I1`, `I2` and `I4` factories store it, and as the receiver reads it. */
  function Unsigned(v: int, size: nat): nat
    requires -(Span(size) as int) <= v < Span(size)
  {
    if v < 0 then v + Span(size) else v
  }

  function Signed(raw: nat, size: nat): int {
    if 2 * raw >= Span(size) then raw as int - Span(size) else raw
  }

  /** A signed value survives the trip through its unsigned encoding. */
  lemma SignedSurvives(v: int, size: nat)
    requires -(Span(size) as int) <= 2 * v < Span(size)
    ensures Signed(Unsigned(v, size) % Span(size), size) == v
  {
    ModuloUnique(Unsigned(v, size), Span(size), 0, Unsigned(v, size));
  }
}
