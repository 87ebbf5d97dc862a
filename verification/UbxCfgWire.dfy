/**
 CFG-VALSET requests byte by byte: which bit of the mask means which layer, how a key announces the
 width of its value, which requests are accepted, and one request written out.
 */
module UbxCfgWire {
  import opened Bits
  import opened UbxFramer
  import opened UbxCfgBuilder

  /** Bit 0 is RAM, bit 1 battery-backed RAM, bit 2 flash; the default layer has no bit. */
  lemma MaskBits(layers: seq<Layer>)
    ensures var mask := LayerMask(layers);
            && mask < 8
            && (mask % 2 == 1 <==> Ram in layers)
            && (mask / 2 % 2 == 1 <==> Bbr in layers)
            && (mask / 4 % 2 == 1 <==> Flash in layers)
  {
  }

  /** Bits 28 to 30 of a key give the storage of its value: one bit, or one, two or four bytes. */
  function StorageBits(key: uint32): Option<nat> {
    var code := key / 0x1000_0000 % 8;
    if code == 1 then Some(1) else if code == 2 then Some(8) else if code == 3 then Some(16)
    else if code == 4 then Some(32) else None
  }

  function TypeBits(t: ValueType): nat {
    if t == Boolean then 1 else if t == U1 || t == I1 then 8 else if t == U2 || t == I2 then 16 else 32
  }

  lemma MatchesIffStorage(key: uint32, t: ValueType)
    ensures DoesValueTypeMatchKey(key, t) <==> StorageBits(key) == Some(TypeBits(t))
    ensures EncodedSize(t) == if TypeBits(t) == 1 then 1 else TypeBits(t) / 8
  {
  }

  lemma AllMatchIffStorage(items: seq<KeyValue>)
    ensures AllMatch(items) <==>
              forall kv :: kv in items ==> StorageBits(kv.key) == Some(TypeBits(kv.value.valueType))
  {
    hide DoesValueTypeMatchKey, StorageBits, TypeBits;
    forall kv: KeyValue ensures DoesValueTypeMatchKey(kv.key, kv.value.valueType)
                           <==> StorageBits(kv.key) == Some(TypeBits(kv.value.valueType)) {
      MatchesIffStorage(kv.key, kv.value.valueType);
    }
  }

  /**
   The builder's three tests together: at most 64 items, a layer that can be written, and every value as
   wide as its key announces.
   */
  lemma AcceptedIff(layers: seq<Layer>, items: seq<KeyValue>)
    ensures |items| <= MAX_ITEMS && LayerMask(layers) != 0 && AllMatch(items) <==>
              && |items| <= 64 && (Ram in layers || Bbr in layers || Flash in layers)
              && forall kv :: kv in items ==> StorageBits(kv.key) == Some(TypeBits(kv.value.valueType))
  {
    hide AllMatch, StorageBits, TypeBits;
    AllMatchIffStorage(items);
  }

  /** Sync bytes, class 06, id 8A, the length, and then version 1, the mask, the transaction and a reserved zero. */
  lemma FrameStarts(layers: seq<Layer>, items: seq<KeyValue>, transaction: CfgTransaction)
    ensures var p := ValsetPayload(layers, items, transaction);
            var f := BuildUbxFrame(Message(CLASS_CFG, ID_VALSET, p));
            && |p| >= 4 && p[..4] == [0x01, LayerMask(layers), TransactionCode(transaction), 0x00]
            && |f| == |p| + 8 && f[..4] == [0xB5, 0x62, 0x06, 0x8A]
            && f[4] == |p| % 256 && f[5] == |p| / 256 % 256 && f[6..|f| - 2] == p
  {
    hide EncodeItems;
  }

  lemma TransactionCodes()
    ensures TransactionCode(NoTransaction) == 0 && TransactionCode(StartTransaction) == 1
    ensures TransactionCode(Ongoing) == 2 && TransactionCode(ApplyTransaction) == 3
  {
  }

  lemma FourBytes(v: nat)
    ensures LittleEndian(v, 4) == [v % 256, v / 256 % 256, v / 0x1_0000 % 256, v / 0x100_0000 % 256]
    ensures LittleEndian(v, 2) == [v % 256, v / 256 % 256] && LittleEndian(v, 1) == [v % 256]
  {
    assert v / 256 / 256 == v / 0x1_0000 && v / 256 / 256 / 256 == v / 0x100_0000;
    assert LittleEndian(v / 256 / 256 / 256, 1) == [v / 0x100_0000 % 256];
    assert LittleEndian(v / 256 / 256, 2) == [v / 0x1_0000 % 256] + LittleEndian(v / 256 / 256 / 256, 1);
    assert LittleEndian(v / 256, 1) == [v / 256 % 256];
  }

  /** The UART1 baud rate of 921600, for RAM and battery-backed RAM. */
  const BAUD := KeyValue(0x4052_0001, Value(U4, 921600))

  lemma BaudItem()
    ensures EncodeItem(BAUD) == [0x01, 0x00, 0x52, 0x40] + [0x00, 0x10, 0x0E, 0x00]
  {
    assert LittleEndian(0x4052_0001, 4) == [0x01, 0x00, 0x52, 0x40] by { FourBytes(0x4052_0001); }
    assert LittleEndian(921600, 4) == [0x00, 0x10, 0x0E, 0x00] by { FourBytes(921600); }
    hide LittleEndian;
  }

  lemma OneItem(kv: KeyValue)
    ensures EncodeItems([kv]) == EncodeItem(kv)
  {
    hide EncodeItem;
    assert [kv][..0] == [];
  }

  lemma BaudRequest()
    ensures AllMatch([BAUD]) && LayerMask([Ram, Bbr]) == 3
    ensures ValsetPayload([Ram, Bbr], [BAUD], NoTransaction)
         == [0x01, 0x03, 0x00, 0x00] + [0x01, 0x00, 0x52, 0x40] + [0x00, 0x10, 0x0E, 0x00]
  {
    hide EncodeItem, EncodeItems;
    OneItem(BAUD);
    BaudItem();
  }
}
