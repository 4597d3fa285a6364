/** Building and parsing cw-storage-plus keys: scripts/iavl-key.ts and the state explorer. */
module StorageKeys {
  import opened Basics
  import opened TypedArrays
  import Bech32
  import Hex
  import Utf8

  // ------------------------------------------------------------------
  // Text
  // ------------------------------------------------------------------

  /** `new TextEncoder().encode(s)`. */
  function TextBytes(s: string): Bytes {
    Utf8.Encode(Utf8.Scalars(s))
  }

  const BOM: Bytes := [0xEF, 0xBB, 0xBF]

  function DropBom(b: Bytes): Bytes {
    if |b| >= 3 && b[..3] == BOM then b[3..] else b
  }

  /** A fatal `TextDecoder`: it fails on invalid UTF-8 and drops one leading byte order mark. */
  function DecodeText(b: Bytes): Option<string> {
    match Utf8.Decode(DropBom(b))
    case None => None
    case Some(t) => Some(Utf8.Chars(t))
  }

  /** `/^[\x20-\x7e]+$/`. */
  predicate IsPrintable(s: string) {
    s != [] && forall i :: 0 <= i < |s| ==> ' ' <= s[i] <= '~'
  }

  predicate PrintableBytes(b: Bytes) {
    b != [] && Printable(b)
  }

  // ------------------------------------------------------------------
  // Building keys
  // ------------------------------------------------------------------

  /** Two big-endian length bytes, the namespace, the map key. */
  function MapKey(ns: string, key: string): Bytes {
    var n := |TextBytes(ns)|;
    [n / 256 % 256, n % 256] + (TextBytes(ns) + TextBytes(key))
  }

  function IavlKey(addr: Bytes, ns: string, key: string): Bytes {
    [0x03] + (addr + MapKey(ns, key))
  }

  method CwStoragePlusMapKey(ns: string, key: string) returns (r: array<byte>)
    ensures fresh(r)
    ensures r[..] == MapKey(ns, key)
  {
    var nsBytes, keyBytes := TextBytes(ns), TextBytes(key);
    var lenPrefix := new byte[2](_ => 0);
    lenPrefix[0] := |nsBytes| / 256 % 256;
    lenPrefix[1] := |nsBytes| % 256;
    r := ConcatBytes([lenPrefix[..], nsBytes, keyBytes]);
    FlattenThree(lenPrefix[..], nsBytes, keyBytes);
  }

  /** `addrHex` is the registry's address and `ns` its map, both constants of the script. */
  method BuildIavlKey(addrHex: string, ns: string, key: string) returns (r: array<byte>)
    ensures fresh(r)
    ensures r[..] == IavlKey(Hex.Unhex(addrHex), ns, key)
  {
    var addr := Hex.HexToBytes(addrHex);
    var storageKey := CwStoragePlusMapKey(ns, key);
    r := ConcatBytes([[0x03], addr[..], storageKey[..]]);
    FlattenThree([0x03], addr[..], storageKey[..]);
  }

  lemma FlattenThree(a: Bytes, b: Bytes, c: Bytes)
    ensures Flatten([a, b, c]) == a + (b + c)
  {
    assert [a, b, c][1..] == [b, c] && [b, c][1..] == [c];
    assert Flatten([c]) == c + Flatten([c][1..]);
  }

  /** `None` stands for the exception on an address with a character outside the bech32 alphabet. */
  function WasmStoreKey(addr: string, storageKeyHex: string): Option<string> {
    match Bech32.AddressBytes(addr)
    case None => None
    case Some(raw) => Some("03" + Hex.ToHex(raw) + storageKeyHex)
  }

  function WasmStoreKeyForNsEntry(addr: string, ns: string, key: string): Option<string> {
    var nsHex := Hex.ToHex(TextBytes(ns));
    match Bech32.AddressBytes(addr)
    case None => None
    case Some(raw) =>
      Some("03" + Hex.ToHex(raw) + Hex.PadStart(Hex.NumberHex(|nsHex| / 2), 4) + nsHex + Hex.ToHex(TextBytes(key)))
  }

  // ------------------------------------------------------------------
  // Parsing keys
  // ------------------------------------------------------------------

  datatype Parts = Parts(ns: string, key: string)

  function NsLength(b: Bytes): nat
    requires |b| >= 2
  {
    256 * (b[0] as int) + b[1]
  }

  /** A raw key splits as a map entry when its length prefix leaves a namespace and a key that are not empty. */
  predicate SplitsAsMap(b: Bytes) {
    |b| >= 2 && 0 < NsLength(b) < |b| - 2
  }

  function NsBytes(b: Bytes): Bytes
    requires SplitsAsMap(b)
  {
    b[2..2 + NsLength(b)]
  }

  function KeyBytes(b: Bytes): Bytes
    requires SplitsAsMap(b)
  {
    b[2 + NsLength(b)..]
  }

  function ShownKey(b: Bytes): string {
    match DecodeText(b)
    case Some(text) => if IsPrintable(text) then text else "0x" + Hex.ToHex(b)
    case None => "0x" + Hex.ToHex(b)
  }

  function ParseWasmKeyParts(hex: string): Option<Parts> {
    var b := Hex.Unhex(hex);
    if !SplitsAsMap(b) then None else
      match DecodeText(NsBytes(b))
      case None => None
      case Some(ns) => if IsPrintable(ns) then Some(Parts(ns, ShownKey(KeyBytes(b)))) else None
  }

  /** The map reading of a key, if it has one; where decoding a namespace throws, the item reading is tried next. */
  function DecodeAsMap(b: Bytes): Option<string> {
    if |b| < 2 then None
    else
      var nsLen := NsLength(b);
      if !(nsLen > 0 && nsLen < |b| - 2) then None else
        var nsBytes, keyBytes := b[2..2 + nsLen], b[2 + nsLen..];
        match DecodeText(nsBytes)
        case None => None
        case Some(ns) =>
          if !IsPrintable(ns) then None
          else match DecodeText(keyBytes)
            case Some(text) =>
              if IsPrintable(text) then Some(ns + "::" + text) else Some(ns + "::0x" + Hex.ToHex(keyBytes))
            case None => Some(ns + "::0x" + Hex.ToHex(keyBytes))
  }

  function DecodeWasmStateKey(hex: string): string {
    var b := Hex.Unhex(hex);
    match DecodeAsMap(b)
    case Some(shown) => shown
    case None =>
      match DecodeText(b)
      case None => "0x" + hex
      case Some(text) => if IsPrintable(text) then text else "0x" + hex
  }

  // ------------------------------------------------------------------
  // Text lemmas
  // ------------------------------------------------------------------

  lemma TextBytesInjective(s: string, s': string)
    requires TextBytes(s) == TextBytes(s')
    ensures s == s'
  {
    Utf8.DecodeEncode(Utf8.Scalars(s));
    Utf8.DecodeEncode(Utf8.Scalars(s'));
    Utf8.CharsOfScalars(s);
    Utf8.CharsOfScalars(s');
  }

  lemma {:induction false} EncodePrintable(t: Utf8.Text)
    requires forall i :: 0 <= i < |t| ==> 0x20 <= t[i] <= 0x7e
    ensures Utf8.Encode(t) == t
  {
    if t != [] {
      EncodePrintable(t[1..]);
      assert [t[0]] + t[1..] == t;
    }
  }

  /** Printable text is its own bytes, one for each character, and reads back. */
  lemma PrintableText(s: string)
    requires IsPrintable(s)
    ensures TextBytes(s) == Utf8.Scalars(s) && PrintableBytes(TextBytes(s)) && DecodeText(TextBytes(s)) == Some(s)
  {
    hide Utf8.Encode, Utf8.Decode;
    EncodePrintable(Utf8.Scalars(s));
    Utf8.DecodeEncode(Utf8.Scalars(s));
    Utf8.CharsOfScalars(s);
    var b := TextBytes(s);
    if |b| >= 3 { assert b[..3][0] == b[0]; }
  }

  /** Bytes that decode to printable text are that text's bytes, after a possible byte order mark. */
  lemma PrintableDecoded(b: Bytes)
    requires DecodeText(b).Some? && IsPrintable(DecodeText(b).value)
    ensures DropBom(b) == TextBytes(DecodeText(b).value)
    ensures PrintableBytes(b) <==> b == DropBom(b)
  {
    var s := DecodeText(b).value;
    Utf8.EncodeDecode(DropBom(b));
    Utf8.ScalarsOfChars(Utf8.Decode(DropBom(b)).value);
    PrintableText(s);
    if |b| >= 3 { assert b[..3][0] == b[0]; }
  }

  lemma PrintableBytesDecode(b: Bytes)
    requires PrintableBytes(b)
    ensures DecodeText(b).Some? && IsPrintable(DecodeText(b).value) && TextBytes(DecodeText(b).value) == b
  {
    hide Utf8.Decode, Utf8.Encode;
    EncodePrintable(b);
    Utf8.DecodeEncode(b);
    Utf8.ScalarsOfChars(b);
    if |b| >= 3 { assert b[..3][0] == b[0]; }
  }

  // ------------------------------------------------------------------
  // Round trip and injectivity
  // ------------------------------------------------------------------

  lemma MapKeySplits(ns: string, key: string)
    requires 0 < |TextBytes(ns)| < 0x1_0000 && TextBytes(key) != []
    ensures var b := MapKey(ns, key);
            SplitsAsMap(b) && NsBytes(b) == TextBytes(ns) && KeyBytes(b) == TextBytes(key)
  {
    var b, n := MapKey(ns, key), |TextBytes(ns)|;
    assert b[0] == n / 256 && b[1] == n % 256 && NsLength(b) == n;
    assert b[2..] == TextBytes(ns) + TextBytes(key);
    assert b[2..2 + n] == b[2..][..n] && b[2 + n..] == b[2..][n..];
  }

  /** Parsing a built map key gives back its namespace and key. */
  lemma ParseMapKey(ns: string, key: string)
    requires IsPrintable(ns) && |ns| < 0x1_0000 && IsPrintable(key)
    ensures ParseWasmKeyParts(Hex.ToHex(MapKey(ns, key))) == Some(Parts(ns, key))
  {
    hide TextBytes, DecodeText, Hex.Unhex, Hex.ToHex, MapKey, NsBytes, KeyBytes, SplitsAsMap;
    PrintableText(ns);
    PrintableText(key);
    MapKeySplits(ns, key);
    Hex.UnhexToHex(MapKey(ns, key));
  }

  /** With addresses of one length, different addresses, namespaces or keys give different IAVL keys. */
  lemma IavlKeyInjective(addr: Bytes, ns: string, key: string, addr': Bytes, ns': string, key': string)
    requires |addr| == |addr'| && |TextBytes(ns)| < 0x1_0000 && |TextBytes(ns')| < 0x1_0000
    requires IavlKey(addr, ns, key) == IavlKey(addr', ns', key')
    ensures addr == addr' && ns == ns' && key == key'
  {
    hide TextBytes;
    var b, b' := MapKey(ns, key), MapKey(ns', key');
    SameTail(addr, b, addr', b');
    SameMapKey(ns, key, ns', key');
    TextBytesInjective(ns, ns');
    TextBytesInjective(key, key');
  }

  lemma SameTail(addr: Bytes, b: Bytes, addr': Bytes, b': Bytes)
    requires |addr| == |addr'| && [0x03] + (addr + b) == [0x03] + (addr' + b')
    ensures addr == addr' && b == b'
  {
    var x, y := [0x03] + (addr + b), [0x03] + (addr' + b');
    assert x[1..] == addr + b && y[1..] == addr' + b';
    assert (addr + b)[..|addr|] == addr && (addr' + b')[..|addr|] == addr';
    assert (addr + b)[|addr|..] == b && (addr' + b')[|addr|..] == b';
  }

  lemma SameMapKey(ns: string, key: string, ns': string, key': string)
    requires |TextBytes(ns)| < 0x1_0000 && |TextBytes(ns')| < 0x1_0000 && MapKey(ns, key) == MapKey(ns', key')
    ensures TextBytes(ns) == TextBytes(ns') && TextBytes(key) == TextBytes(key')
  {
    hide TextBytes;
    var b, b', n := MapKey(ns, key), MapKey(ns', key'), |TextBytes(ns)|;
    assert b[0] == n / 256 && b[1] == n % 256;
    assert b'[0] == |TextBytes(ns')| / 256 && b'[1] == |TextBytes(ns')| % 256;
    assert n == |TextBytes(ns')|;
    assert b[2..] == TextBytes(ns) + TextBytes(key) && b'[2..] == TextBytes(ns') + TextBytes(key');
    assert b[2..][..n] == TextBytes(ns) && b'[2..][..n] == TextBytes(ns');
    assert b[2..][n..] == TextBytes(key) && b'[2..][n..] == TextBytes(key');
  }

  // ------------------------------------------------------------------
  // The builders agree
  // ------------------------------------------------------------------

  lemma UnhexThree()
    ensures Hex.Unhex("03") == [0x03]
  {
    hide Hex.ParseInt;
    var s := "03";
    Hex.TwoDigits(0, 3);
    assert s == [Hex.Digit(0), Hex.Digit(3)] && s[..2] == s && s[2..] == [];
  }

  lemma UnhexPrefixed(raw: Bytes, tail: string)
    ensures Hex.Unhex("03" + Hex.ToHex(raw) + tail) == [0x03] + (raw + Hex.Unhex(tail))
  {
    hide Hex.Unhex, Hex.ToHex;
    var addrHex := Hex.ToHex(raw);
    UnhexThree();
    assert "03" + addrHex + tail == "03" + (addrHex + tail);
    Hex.UnhexAppend("03", addrHex + tail);
    Hex.UnhexAppend(addrHex, tail);
    Hex.UnhexToHex(raw);
  }

  lemma RegroupText(a: string, b: string, c: string, d: string)
    ensures a + b + c + d == a + (b + (c + d))
  {
  }

  /** For every text, the explorer's hex key denotes the bytes the script builds for the address's bytes. */
  lemma BuildersAgree(addr: string, ns: string, key: string)
    requires Bech32.AddressBytes(addr).Some? && |TextBytes(ns)| < 0x1_0000
    ensures Hex.Unhex(WasmStoreKeyForNsEntry(addr, ns, key).value) == IavlKey(Bech32.AddressBytes(addr).value, ns, key)
  {
    hide TextBytes, Hex.Unhex, Hex.PadStart, Hex.NumberHex, Hex.ToHex, Bech32.AddressBytes;
    var raw := Bech32.AddressBytes(addr).value;
    var n, nsHex, keyHex := |TextBytes(ns)|, Hex.ToHex(TextBytes(ns)), Hex.ToHex(TextBytes(key));
    var len := Hex.PadStart(Hex.NumberHex(n), 4);
    assert |nsHex| / 2 == n;
    RegroupText("03" + Hex.ToHex(raw), len, nsHex, keyHex);
    Hex.PaddedLength(n);
    UnhexPrefixed(raw, len + (nsHex + keyHex));
    UnhexMapKey(ns, key, len);
  }

  lemma UnhexMapKey(ns: string, key: string, len: string)
    requires |TextBytes(ns)| < 0x1_0000 && |len| == 4
    requires Hex.Unhex(len) == [|TextBytes(ns)| / 256, |TextBytes(ns)| % 256]
    ensures Hex.Unhex(len + (Hex.ToHex(TextBytes(ns)) + Hex.ToHex(TextBytes(key)))) == MapKey(ns, key)
  {
    hide TextBytes, Hex.Unhex, Hex.ToHex;
    var nsHex, keyHex := Hex.ToHex(TextBytes(ns)), Hex.ToHex(TextBytes(key));
    Hex.UnhexAppend(len, nsHex + keyHex);
    Hex.UnhexAppend(nsHex, keyHex);
    Hex.UnhexToHex(TextBytes(ns));
    Hex.UnhexToHex(TextBytes(key));
  }

  /**
   * For a raw key that parses as a map entry, rebuilding its store key from the parsed parts denotes the same bytes
   * as the raw hex, in either case, exactly when namespace and key are printable bytes: a binary key is shown as
   * hex text, and that text, not the key, is what gets encoded.
   */
  lemma RebuiltKeyIsRaw(addr: string, hex: string)
    requires Bech32.AddressBytes(addr).Some? && ParseWasmKeyParts(hex).Some?
    ensures var b, p := Hex.Unhex(hex), ParseWasmKeyParts(hex).value;
            Hex.Unhex(WasmStoreKeyForNsEntry(addr, p.ns, p.key).value) == Hex.Unhex(WasmStoreKey(addr, hex).value)
            <==> PrintableBytes(NsBytes(b)) && PrintableBytes(KeyBytes(b))
  {
    hide Hex.Unhex, TextBytes, DecodeText, IsPrintable, PrintableBytes, DropBom, Hex.ToHex;
    hide WasmStoreKeyForNsEntry, Bech32.AddressBytes;
    var b, p := Hex.Unhex(hex), ParseWasmKeyParts(hex).value;
    var raw := Bech32.AddressBytes(addr).value;
    PrintableDecoded(NsBytes(b));
    DropBomShortens(NsBytes(b));
    UnhexPrefixed(raw, hex);
    NamespaceFits(b);
    BuildersAgree(addr, p.ns, p.key);
    SamePrefix(raw, MapKey(p.ns, p.key), b);
    ShownKeyBytes(KeyBytes(b));
    NotRebuilt(b, p);
  }

  lemma BinaryKeyHex()
    ensures Hex.ToHex([0, 1, 65, 255]) == "000141ff" && Hex.ToHex([255]) == "ff"
  {
    var b: Bytes := [0, 1, 65, 255];
    assert b[1..] == [1, 65, 255] && b[1..][1..] == [65, 255] && b[1..][1..][1..] == [255];
    assert Hex.ByteHex(0) + (Hex.ByteHex(1) + (Hex.ByteHex(65) + Hex.ByteHex(255))) == "000141ff";
    assert Hex.ToHex([255]) == Hex.ByteHex(255) + Hex.ToHex([]) == "ff";
  }

  lemma BinaryKeyParses()
    ensures SplitsAsMap([0, 1, 65, 255]) && NsBytes([0, 1, 65, 255]) == [65] && KeyBytes([0, 1, 65, 255]) == [255]
    ensures DecodeText([65]) == Some("A") && DecodeText([255]) == None
  {
    PrintableText("A");
    assert Utf8.Scalars("A") == [65];
  }

  /** A map entry under namespace `A` with the one-byte key 0xff: the explorer rebuilds the key of another entry. */
  lemma BinaryKeyIsNotRebuilt(addr: string)
    requires Bech32.AddressBytes(addr).Some?
    ensures ParseWasmKeyParts("000141ff") == Some(Parts("A", "0xff"))
    ensures Hex.Unhex(WasmStoreKeyForNsEntry(addr, "A", "0xff").value)
            != Hex.Unhex(WasmStoreKey(addr, "000141ff").value)
  {
    hide Hex.Unhex, Hex.ToHex, DecodeText, SplitsAsMap, NsBytes, KeyBytes, WasmStoreKeyForNsEntry, WasmStoreKey;
    var b: Bytes := [0, 1, 65, 255];
    BinaryKeyHex();
    BinaryKeyParses();
    Hex.UnhexToHex(b);
    assert Hex.Unhex("000141ff") == b;
    assert ShownKey([255]) == "0xff" by { assert "0x" + "ff" == "0xff"; }
    assert IsPrintable("A") && ParseWasmKeyParts("000141ff") == Some(Parts("A", ShownKey([255])));
    assert !PrintableBytes(KeyBytes(b)) by { assert KeyBytes(b)[0] == 255; }
    RebuiltKeyIsRaw(addr, "000141ff");
  }

  lemma NamespaceFits(b: Bytes)
    requires SplitsAsMap(b)
    ensures |NsBytes(b)| < 0x1_0000
  {
  }

  lemma SamePrefix(raw: Bytes, x: Bytes, y: Bytes)
    ensures [0x03] + (raw + x) == [0x03] + (raw + y) <==> x == y
  {
    if [0x03] + (raw + x) == [0x03] + (raw + y) { SameTail(raw, x, raw, y); }
  }

  lemma DropBomShortens(b: Bytes)
    ensures |DropBom(b)| <= |b| && (|DropBom(b)| == |b| ==> DropBom(b) == b)
  {
  }

  /** The text shown for a key encodes to the key itself exactly when the key is printable bytes. */
  lemma ShownKeyBytes(b: Bytes)
    requires b != []
    ensures TextBytes(ShownKey(b)) == b <==> PrintableBytes(b)
  {
    hide PrintableBytes, Utf8.Decode, Hex.ToHex;
    if DecodeText(b).Some? && IsPrintable(DecodeText(b).value) {
      PrintableDecoded(b);
    } else {
      if PrintableBytes(b) { PrintableBytesDecode(b); }
      HexTextIsLonger(b);
    }
  }

  lemma HexTextIsLonger(b: Bytes)
    ensures |TextBytes("0x" + Hex.ToHex(b))| > |b|
  {
    ToHexPrintable(b);
    PrintableText("0x" + Hex.ToHex(b));
  }

  lemma {:induction false} ToHexPrintable(b: Bytes)
    ensures forall i :: 0 <= i < |Hex.ToHex(b)| ==> ' ' <= Hex.ToHex(b)[i] <= '~'
  {
    if b != [] { ToHexPrintable(b[1..]); }
  }

  lemma NotRebuilt(b: Bytes, p: Parts)
    requires SplitsAsMap(b) && |TextBytes(p.ns)| <= |NsBytes(b)|
    ensures MapKey(p.ns, p.key) == b <==> TextBytes(p.ns) == NsBytes(b) && TextBytes(p.key) == KeyBytes(b)
  {
    hide TextBytes;
    var n, m := |TextBytes(p.ns)|, NsLength(b);
    var x := MapKey(p.ns, p.key);
    assert b == [b[0], b[1]] + (NsBytes(b) + KeyBytes(b));
    if x == b {
      assert x[0] == b[0] && x[1] == b[1];
      assert n == m;
      assert x[2..2 + n] == TextBytes(p.ns) && x[2 + n..] == TextBytes(p.key);
    } else if TextBytes(p.ns) == NsBytes(b) {
      assert n == m && m / 256 % 256 == b[0] && m % 256 == b[1];
    }
  }

  // ------------------------------------------------------------------
  // Display
  // ------------------------------------------------------------------

  /** A key that parses as (ns, k) is displayed as `ns::k`, for every hex text. */
  lemma DisplayAgrees(hex: string)
    requires ParseWasmKeyParts(hex).Some?
    ensures var p := ParseWasmKeyParts(hex).value; DecodeWasmStateKey(hex) == p.ns + "::" + p.key
  {
    hide DecodeText, IsPrintable, Hex.Unhex, Hex.ToHex;
    var b, p := Hex.Unhex(hex), ParseWasmKeyParts(hex).value;
    assert p.ns + "::" + ("0x" + Hex.ToHex(KeyBytes(b))) == p.ns + "::0x" + Hex.ToHex(KeyBytes(b));
  }

  lemma PrintableSlice(b: Bytes, i: nat, j: nat)
    requires PrintableBytes(b) && i < j <= |b|
    ensures PrintableBytes(b[i..j])
  {
  }

  /** A printable item key is taken for a map entry exactly when its first two characters make a short enough length. */
  lemma ItemParsesAsMap(s: string)
    requires IsPrintable(s)
    ensures ParseWasmKeyParts(Hex.ToHex(TextBytes(s))).Some?
            <==> |s| >= 2 && 256 * (s[0] as int) + s[1] as int + 2 < |s|
    ensures ParseWasmKeyParts(Hex.ToHex(TextBytes(s))).None? ==> DecodeWasmStateKey(Hex.ToHex(TextBytes(s))) == s
  {
    hide DecodeText, Hex.Unhex, Hex.ToHex, Utf8.Encode;
    var b := TextBytes(s);
    PrintableText(s);
    Hex.UnhexToHex(b);
    if SplitsAsMap(b) {
      PrintableSlice(b, 2, 2 + NsLength(b));
      PrintableBytesDecode(NsBytes(b));
    }
  }

  /** Items of up to 8226 printable characters never look like map entries and are displayed verbatim. */
  lemma ItemsAreNotMaps(s: string)
    requires IsPrintable(s) && |s| <= 8226
    ensures ParseWasmKeyParts(Hex.ToHex(TextBytes(s))) == None
    ensures DecodeWasmStateKey(Hex.ToHex(TextBytes(s))) == s
  {
    hide ParseWasmKeyParts, DecodeWasmStateKey, TextBytes, Hex.ToHex;
    ItemParsesAsMap(s);
  }

  /** The bound is tight: 8227 blanks are read as a map entry. */
  lemma LongItemLooksLikeMap()
    ensures var s: string := seq(8227, _ => ' '); IsPrintable(s) && ParseWasmKeyParts(Hex.ToHex(TextBytes(s))).Some?
  {
    hide ParseWasmKeyParts, TextBytes, Hex.ToHex;
    ItemParsesAsMap(seq(8227, _ => ' '));
  }
}
