/**
 * The JSON write requests (`receiveJsonWriteRequest`,
 * `receiveTranslatedWriteRequest`, `receiveRawWriteRequest`).
 *
 * The JSON parser is not part of this model: its result is given as an
 * optional map from keys to items, `None` when the text does not parse.  Of
 * an item the translator reads only its integer value and its string value;
 * the latter is absent (a null pointer) when the item is not a string.
 *
 * `JsonWriteRequest` decides which branch of the source fires and returns it
 * as a `WriteAction`: the collaborator to call (`sendCanSignal`, a command
 * handler), the raw message to push, or why the request is dropped.
 */
module JsonWrite {
  import opened Wrappers
  import opened Bytes
  import opened Can
  import opened Signals

  /** The fields of a parsed JSON item that the translator reads. */
  datatype JsonItem = JsonItem(valueint: int, valuestring: Option<string>)

  type JsonObject = map<string, JsonItem>

  datatype WriteAction =
    | Unparsed                        // the text is not JSON: "no message found"
    | MissingNameOrId                 // malformed: neither "name" nor "id"
    | MissingValue                    // translated write without "value": dropped
    | NotWritable(name: string)       // no writable signal and no command of that name: dropped
    | MissingData(id: uint32)         // raw write without "data": dropped
    | NullString                      // "name" or "data" is not a string: the source passes a null pointer on
    | SendSignal(signal: CanSignal, value: JsonItem)                // sendCanSignal(signal, value, ...)
    | RunCommand(command: CanCommand, name: string, value: JsonItem) // command->handler(name, value, ...)
    | PushRaw(message: CanMessage)    // push onto bus 0's send queue

  // ---------------------------------------------------------------------
  // strtoull(s, &end, 16) on a string of hex digits

  const ULLONG_MAX: uint64 := 0xFFFF_FFFF_FFFF_FFFF

  predicate IsHexDigit(c: char)
  {
    '0' <= c <= '9' || 'a' <= c <= 'f' || 'A' <= c <= 'F'
  }

  predicate AllHex(s: string)
  {
    forall i :: 0 <= i < |s| ==> IsHexDigit(s[i])
  }

  function HexDigit(c: char): (d: nat)
    requires IsHexDigit(c)
    ensures d < 16
  {
    if '0' <= c <= '9' then c as int - '0' as int
    else if 'a' <= c <= 'f' then c as int - 'a' as int + 10
    else c as int - 'A' as int + 10
  }

  /** The number of hex digits at the start of `s`. */
  function HexPrefixLength(s: string): (n: nat)
    ensures n <= |s| && AllHex(s[..n])
    ensures n < |s| ==> !IsHexDigit(s[n])
  {
    if s == [] || !IsHexDigit(s[0]) then 0
    else
      var n := 1 + HexPrefixLength(s[1..]);
      assert forall i :: 1 <= i < n ==> s[..n][i] == s[1..][..n - 1][i - 1];
      n
  }

  /** The value of a string of hex digits, most significant digit first. */
  function HexValue(digits: string): nat
    requires AllHex(digits)
  {
    if digits == [] then 0
    else 16 * HexValue(digits[..|digits| - 1]) + HexDigit(digits[|digits| - 1])
  }

  function Pow16(n: nat): (r: nat)
    ensures r >= 1
  {
    if n == 0 then 1 else 16 * Pow16(n - 1)
  }

  /** `n` hex digits or fewer spell a number below 16^n. */
  lemma {:induction false} HexValueBelow(digits: string, n: nat)
    requires AllHex(digits) && |digits| <= n
    ensures HexValue(digits) < Pow16(n)
  {
    if digits != [] {
      var init := digits[..|digits| - 1];
      HexValueBelow(init, n - 1);
      assert 16 * HexValue(init) <= 16 * (Pow16(n - 1) - 1);
    }
  }

  /** Two hex digits make a byte: 16^(2n) == 256^n. */
  lemma {:induction false} Pow16Pow256(n: nat)
    ensures Pow16(2 * n) == Pow256(n)
  {
    if n > 0 {
      Pow16Pow256(n - 1);
      assert Pow16(2 * n) == 16 * (16 * Pow16(2 * (n - 1)));
    }
  }

  /** At most sixteen hex digits fit in an unsigned long long. */
  lemma SixteenDigitsFit(digits: string)
    requires AllHex(digits)
    ensures |digits| <= 16 ==> HexValue(digits) <= ULLONG_MAX
  {
    if |digits| <= 16 {
      HexValueBelow(digits, 16);
      Pow16Pow256(8);
      Pow256Widths();
    }
  }

  /**
   * strtoull in base 16: the value of the leading hex digits, saturated at
   * ULLONG_MAX; exact when there are at most sixteen of them.
   */
  function StrToULongLongHex(s: string): (r: uint64)
    ensures r <= HexValue(s[..HexPrefixLength(s)])
    ensures HexPrefixLength(s) <= 16 ==> r == HexValue(s[..HexPrefixLength(s)])
  {
    var digits := s[..HexPrefixLength(s)];
    SixteenDigitsFit(digits);
    var v := HexValue(digits);
    if v <= ULLONG_MAX then v else ULLONG_MAX
  }

  /** The bytes the hex digit pairs of `digits` spell, first pair first (a trailing odd digit is not read). */
  function HexBytes(digits: string): (r: seq<byte>)
    requires AllHex(digits)
    ensures |r| == |digits| / 2
  {
    seq(|digits| / 2, i requires 0 <= i < |digits| / 2 => 16 * HexDigit(digits[2 * i]) + HexDigit(digits[2 * i + 1]))
  }

  /** The last two digits of a string of digit pairs are its last byte. */
  lemma HexBytesSnoc(digits: string, pairs: nat)
    requires AllHex(digits) && |digits| == 2 * pairs && pairs > 0
    ensures HexValue(digits) == 256 * HexValue(digits[..|digits| - 2]) + HexBytes(digits)[pairs - 1]
    ensures HexBytes(digits) == HexBytes(digits[..|digits| - 2]) + [HexBytes(digits)[pairs - 1]]
  {
    var n := |digits|;
    var init := digits[..n - 2];
    assert digits[..n - 1][..n - 2] == init;
    var all, front := HexBytes(digits), HexBytes(init);
    assert |all| == pairs && |front| == pairs - 1;
    assert forall i :: 0 <= i < pairs - 1 ==> all[i] == front[i];
  }

  /**
   * Hex digit pairs are big-endian bytes: the value of `pairs` pairs of
   * digits is that of their bytes read first byte most significant.
   */
  lemma {:induction false} HexValueOfBytes(digits: string, pairs: nat)
    requires AllHex(digits) && |digits| == 2 * pairs
    ensures HexValue(digits) == BeValue(HexBytes(digits))
  {
    if pairs > 0 {
      var init := digits[..|digits| - 2];
      HexValueOfBytes(init, pairs - 1);
      HexBytesSnoc(digits, pairs);
      var all := HexBytes(digits);
      assert all[..pairs - 1] == HexBytes(init);
    }
  }

  // ---------------------------------------------------------------------
  // The decision tree

  /** The conversion of an int to uint32_t: modulo 2^32, so an id that fits is unchanged. */
  function ToUint32(x: int): (r: uint32)
    ensures 0 <= x < 0x1_0000_0000 ==> r == x
    ensures (r - x) % 0x1_0000_0000 == 0
  {
    x % 0x1_0000_0000
  }

  /** receiveRawWriteRequest: the id converted to uint32_t, the payload the byte swap of the hex value of "data". */
  function RawWriteRequest(idItem: JsonItem, root: JsonObject): (r: WriteAction)
    ensures r.MissingData? <==> "data" !in root
    ensures r.MissingData? ==> r.id == ToUint32(idItem.valueint)
    ensures r.NullString? <==> "data" in root && root["data"].valuestring.None?
    ensures r.PushRaw? <==> "data" in root && root["data"].valuestring.Some?
    ensures r.PushRaw? ==> r.message.id == ToUint32(idItem.valueint)
    ensures r.PushRaw? ==> PayloadBytes(r.message)
                           == Reverse(LeBytes(StrToULongLongHex(root["data"].valuestring.value), 8))
  {
    var id := ToUint32(idItem.valueint);
    if "data" !in root then MissingData(id)
    else match root["data"].valuestring
      case None => NullString
      case Some(s) => PushRaw(CanMessage(id, Bswap64(StrToULongLongHex(s))))
  }

  /**
   * receiveTranslatedWriteRequest: a writable signal of that name first, then
   * a command of that name, else the write is not allowed.
   */
  function TranslatedWriteRequest(nameItem: JsonItem, root: JsonObject, catalog: Catalog): (r: WriteAction)
    ensures r.MissingValue? || r.NullString? || r.SendSignal? || r.RunCommand? || r.NotWritable?
    ensures r.MissingValue? <==> "value" !in root
    ensures r.NullString? <==> "value" in root && nameItem.valuestring.None?
    ensures r.SendSignal? ==>
              && "value" in root && r.value == root["value"]
              && nameItem.valuestring == Some(r.signal.name)
              && r.signal in catalog.signals && r.signal.writable
    ensures r.RunCommand? ==>
              && "value" in root && r.value == root["value"]
              && nameItem.valuestring == Some(r.name)
              && r.command in catalog.commands && r.command.name == r.name
              && forall s :: s in catalog.signals ==> s.name != r.name || !s.writable
    ensures r.NotWritable? ==>
              && nameItem.valuestring == Some(r.name)
              && (forall s :: s in catalog.signals ==> s.name != r.name || !s.writable)
              && forall c :: c in catalog.commands ==> c.name != r.name
  {
    if "value" !in root then MissingValue
    else match nameItem.valuestring
      case None => NullString
      case Some(name) =>
        var signal := FindSignal(name, catalog.signals, true);
        var command := LookupCommand(name, catalog.commands);
        if signal.Some? then SendSignal(signal.value, root["value"])
        else if command.Some? then RunCommand(catalog.commands[command.value], name, root["value"])
        else NotWritable(name)
  }

  /** receiveJsonWriteRequest: "name" is looked at first, then "id". */
  function JsonWriteRequest(parsed: Option<JsonObject>, catalog: Catalog): (r: WriteAction)
    ensures r.Unparsed? <==> parsed.None?
    ensures r.MissingNameOrId? <==> parsed.Some? && "name" !in parsed.value && "id" !in parsed.value
    ensures r.PushRaw? <==>
              && parsed.Some? && "name" !in parsed.value && "id" in parsed.value && "data" in parsed.value
              && parsed.value["data"].valuestring.Some?
    ensures (r.SendSignal? || r.RunCommand?) ==> parsed.Some? && "name" in parsed.value && "value" in parsed.value
  {
    match parsed
    case None => Unparsed
    case Some(root) =>
      if "name" in root then TranslatedWriteRequest(root["name"], root, catalog)
      else if "id" in root then RawWriteRequest(root["id"], root)
      else MissingNameOrId
  }

  // ---------------------------------------------------------------------
  // Properties of the decision tree

  /** With "name" present, the request is a translated write whatever "id" holds. */
  lemma NameTakesPrecedence(root: JsonObject, catalog: Catalog, idItem: JsonItem)
    requires "name" in root
    ensures JsonWriteRequest(Some(root["id" := idItem]), catalog)
         == JsonWriteRequest(Some(root - {"id"}), catalog)
    ensures !JsonWriteRequest(Some(root), catalog).PushRaw?
  {
    assert root["id" := idItem]["name"] == root["name"] == (root - {"id"})["name"];
  }

  /** A translated write naming a writable signal sends that signal, even when a command has the same name. */
  lemma SignalBeatsCommand(root: JsonObject, catalog: Catalog, name: string, k: nat)
    requires "name" in root && root["name"].valuestring == Some(name) && "value" in root
    requires k < |catalog.signals| && catalog.signals[k].name == name && catalog.signals[k].writable
    ensures var r := JsonWriteRequest(Some(root), catalog);
            r.SendSignal? && r.signal.name == name && r.signal.writable && r.value == root["value"]
  {
    assert Eligible(catalog.signals[k], name, true);
  }

  /** A translated write naming no writable signal and no command sends nothing and runs no handler. */
  lemma UnknownNameIsDropped(root: JsonObject, catalog: Catalog, name: string)
    requires "name" in root && root["name"].valuestring == Some(name) && "value" in root
    requires forall s :: s in catalog.signals ==> s.name != name || !s.writable
    requires forall c :: c in catalog.commands ==> c.name != name
    ensures JsonWriteRequest(Some(root), catalog) == NotWritable(name)
  {
    assert forall j :: 0 <= j < |catalog.signals| ==> !Eligible(catalog.signals[j], name, true) by {
      forall j | 0 <= j < |catalog.signals| ensures !Eligible(catalog.signals[j], name, true) {
        assert catalog.signals[j] in catalog.signals;
      }
    }
    assert forall j :: 0 <= j < |catalog.commands| ==> catalog.commands[j].name != name by {
      forall j | 0 <= j < |catalog.commands| ensures catalog.commands[j].name != name {
        assert catalog.commands[j] in catalog.commands;
      }
    }
  }

  /** A translated write naming a command and no writable signal runs that command's handler with the name and "value". */
  lemma CommandRunsWithoutWritableSignal(root: JsonObject, catalog: Catalog, name: string, k: nat)
    requires "name" in root && root["name"].valuestring == Some(name) && "value" in root
    requires forall s :: s in catalog.signals ==> s.name != name || !s.writable
    requires k < |catalog.commands| && catalog.commands[k].name == name
    ensures var r := JsonWriteRequest(Some(root), catalog);
            r.RunCommand? && r.command.name == name && r.name == name && r.value == root["value"]
  {
    assert !(forall j :: 0 <= j < |catalog.commands| ==> catalog.commands[j].name != name);
  }

  /**
   * A raw write whose "data" is a string, whatever its digits, pushes one
   * message: the id is "id" as a uint32_t and the payload bytes are the
   * strtoull value's bytes, most significant first.
   */
  lemma RawWritePushes(root: JsonObject, catalog: Catalog, s: string)
    requires "name" !in root && "id" in root && "data" in root && root["data"].valuestring == Some(s)
    ensures var r := JsonWriteRequest(Some(root), catalog);
            && r.PushRaw?
            && r.message.id == ToUint32(root["id"].valueint)
            && PayloadBytes(r.message) == Reverse(LeBytes(StrToULongLongHex(s), 8))
  {
  }

  /**
   * Writing to a signal that is not writable cannot be told apart from writing
   * to one that does not exist: every request is decided as if the read-only
   * signals were not in the catalogue.
   */
  lemma ReadOnlySignalsAreInert(parsed: Option<JsonObject>, catalog: Catalog)
    ensures JsonWriteRequest(parsed, catalog)
         == JsonWriteRequest(parsed, Catalog(WritableSignals(catalog.signals), catalog.commands))
  {
    if parsed.Some? && "name" in parsed.value && parsed.value["name"].valuestring.Some? {
      WritableLookupIgnoresReadOnly(parsed.value["name"].valuestring.value, catalog.signals);
    }
  }

  /**
   * A raw write whose "data" is 16 hex digits pushes a message whose id is
   * "id" as a uint32_t and whose payload bytes are the bytes the digits
   * spell, in the order written.
   */
  lemma RawWritePayload(root: JsonObject, catalog: Catalog, s: string)
    requires "name" !in root && "id" in root && "data" in root
    requires root["data"].valuestring == Some(s) && |s| == 16 && AllHex(s)
    ensures var r := JsonWriteRequest(Some(root), catalog);
            && r.PushRaw?
            && r.message.id == ToUint32(root["id"].valueint)
            && PayloadBytes(r.message) == HexBytes(s)
  {
    var id := ToUint32(root["id"].valueint);
    assert JsonWriteRequest(Some(root), catalog) == PushRaw(CanMessage(id, Bswap64(StrToULongLongHex(s))));
    HexPayload(s, id);
  }

  /** The message built from 16 hex digits carries the bytes they spell, in the order written. */
  lemma HexPayload(s: string, id: uint32)
    requires |s| == 16 && AllHex(s)
    ensures PayloadBytes(CanMessage(id, Bswap64(StrToULongLongHex(s)))) == HexBytes(s)
  {
    SixteenHexDigits(s);
    SwappedPayload(StrToULongLongHex(s), HexBytes(s));
  }

  /** Sixteen hex digits are read in full and fit in 64 bits: their value is that of their bytes, first byte most significant. */
  lemma SixteenHexDigits(s: string)
    requires |s| == 16 && AllHex(s)
    ensures StrToULongLongHex(s) == BeValue(HexBytes(s))
  {
    assert HexPrefixLength(s) == 16;
    assert s[..16] == s;
    HexValueOfBytes(s, 8);
    BeValueIsReversedLeValue(HexBytes(s));
    Pow256Widths();
  }

  /** The byte swap of the value of eight bytes read most significant first lays those bytes out in memory in order. */
  lemma SwappedPayload(v: uint64, bytes: seq<byte>)
    requires |bytes| == 8 && v == BeValue(bytes)
    ensures LeBytes(Bswap64(v), 8) == bytes
  {
    BeValueIsReversedLeValue(bytes);
    LeBytesOfLeValue(Reverse(bytes));
    assert Reverse(Reverse(bytes)) == bytes;
  }

  /** The digits "0102030405060708" spell the bytes 01 02 .. 08. */
  lemma ExampleDigits(s: string)
    requires s == "0102030405060708"
    ensures |s| == 16 && AllHex(s) && HexBytes(s) == [1, 2, 3, 4, 5, 6, 7, 8]
  {
  }

  /** {"id": 291, "data": "0102030405060708"} pushes id 291 with payload bytes 01 02 .. 08. */
  lemma RawWriteExample(root: JsonObject, catalog: Catalog, s: string)
    requires s == "0102030405060708"
    requires root == map["id" := JsonItem(291, None), "data" := JsonItem(0, Some(s))]
    ensures var r := JsonWriteRequest(Some(root), catalog);
            r.PushRaw? && r.message.id == 291 && PayloadBytes(r.message) == [1, 2, 3, 4, 5, 6, 7, 8]
  {
    ExampleDigits(s);
    assert "name" !in root && root["id"].valueint == 291 && root["data"].valuestring == Some(s);
    RawWritePayload(root, catalog, s);
  }

  /**
   * receiveJsonWriteRequest: decides the request, pushes the message of a raw
   * write onto bus 0's send queue (a full queue drops it) and reports whether
   * the text parsed.  The signal send or command handler the request calls
   * for is returned in `action`.
   */
  method ReceiveJsonWriteRequest(parsed: Option<JsonObject>, catalog: Catalog, bus0: CanBus)
    returns (found: bool, action: WriteAction)
    requires bus0.Valid()
    modifies bus0.sendQueue
    ensures bus0.Valid()
    ensures found <==> parsed.Some?
    ensures action == JsonWriteRequest(parsed, catalog)
    ensures bus0.sendQueue.items
         == if action.PushRaw? then QueuePush(old(bus0.sendQueue.items), bus0.sendQueue.capacity, action.message)
            else old(bus0.sendQueue.items)
  {
    found := parsed.Some?;
    action := JsonWriteRequest(parsed, catalog);
    if action.PushRaw? {
      var _ := bus0.sendQueue.Push(action.message);
    }
  }
}
