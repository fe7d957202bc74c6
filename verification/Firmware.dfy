/**
 The firmware container: router_update_firmware puts a fixed text in front of a file,
 find_head_offset finds the end of that text, and doFirmwareUpgrade walks the images
 behind it. The image header, CHECKSUM_OK and some signatures are declared in apmib.h,
 which is not part of this model; a Platform stands for them.
 */
module Firmware {
  import opened Config
  import opened CStrings

  // ----- texts

  const CR: byte := 13
  const LF: byte := 10

  // The source spells the second CRLF of these texts \0x0d\0x0a, so that as C strings
  // they end before it.
  function OctetStream(): seq<byte> { Ascii("/octet-stream") + [CR, LF] }
  function ProxyAutoconfig(): seq<byte> { Ascii("/x-ns-proxy-autoconfig") + [CR, LF] }
  function MacBinary(): seq<byte> { Ascii("/macbinary") + [CR, LF] }
  function XMacBinary(): seq<byte> { Ascii("/x-macbinary") + [CR, LF] }

  /** Where the payload of an upload starts, or -1. */
  function FindHeadOffset(d: seq<byte>): (head: int)
    ensures head >= -1
  {
    var octet := Strstr(d, OctetStream(), 0);
    var proxy := Strstr(d, ProxyAutoconfig(), 0);
    var mac := Strstr(d, MacBinary(), 0);
    var xmac := Strstr(d, XMacBinary(), 0);
    var name := Strstr(d, Ascii("filename="), 0);
    if octet >= 0 then octet + 17
    else if proxy >= 0 then proxy + 26
    else if mac >= 0 then mac + 14
    else if xmac >= 0 then xmac + 16
    else if name < 0 then -1
    else
      var quote := Strstr(d, Ascii("\""), name);
      if quote < 0 then -1
      else
        var line := Strstr(d, [CR, LF], quote);
        if line < 0 then -1 else line + 4
  }

  /** The text is nowhere before the first NUL. */
  ghost predicate Nowhere(d: seq<byte>, n: seq<byte>) {
    forall k: nat :: !FirstAt(d, n, 0, k)
  }

  lemma TypeFound(d: seq<byte>, n: seq<byte>, k: nat)
    ensures FirstAt(d, n, 0, k) ==> Strstr(d, n, 0) == k
    ensures Nowhere(d, n) <==> Strstr(d, n, 0) == -1
  {
    StrstrIs(d, n, 0);
  }

  /** None of the four content types is there. */
  ghost predicate NoContentType(d: seq<byte>) {
    && Nowhere(d, Ascii("/octet-stream\r\n")) && Nowhere(d, Ascii("/x-ns-proxy-autoconfig\r\n"))
    && Nowhere(d, Ascii("/macbinary\r\n")) && Nowhere(d, Ascii("/x-macbinary\r\n"))
  }

  lemma ContentTypes()
    ensures OctetStream() == Ascii("/octet-stream\r\n") && ProxyAutoconfig() == Ascii("/x-ns-proxy-autoconfig\r\n")
    ensures MacBinary() == Ascii("/macbinary\r\n") && XMacBinary() == Ascii("/x-macbinary\r\n")
    ensures [CR, LF] == Ascii("\r\n")
  {
  }

  // The payload starts behind the first content type that is found and the empty line behind it.

  lemma OffsetOctet(d: seq<byte>, k: nat)
    requires FirstAt(d, Ascii("/octet-stream\r\n"), 0, k)
    ensures FindHeadOffset(d) == k + 17
  {
    ContentTypes();
    TypeFound(d, OctetStream(), k);
  }

  lemma OffsetProxy(d: seq<byte>, k: nat)
    requires Nowhere(d, Ascii("/octet-stream\r\n"))
    requires FirstAt(d, Ascii("/x-ns-proxy-autoconfig\r\n"), 0, k)
    ensures FindHeadOffset(d) == k + 26
  {
    ContentTypes();
    TypeFound(d, OctetStream(), k);
    TypeFound(d, ProxyAutoconfig(), k);
  }

  lemma OffsetMac(d: seq<byte>, k: nat)
    requires Nowhere(d, Ascii("/octet-stream\r\n")) && Nowhere(d, Ascii("/x-ns-proxy-autoconfig\r\n"))
    requires FirstAt(d, Ascii("/macbinary\r\n"), 0, k)
    ensures FindHeadOffset(d) == k + 14
  {
    ContentTypes();
    TypeFound(d, OctetStream(), k);
    TypeFound(d, ProxyAutoconfig(), k);
    TypeFound(d, MacBinary(), k);
  }

  lemma OffsetXMac(d: seq<byte>, k: nat)
    requires Nowhere(d, Ascii("/octet-stream\r\n")) && Nowhere(d, Ascii("/x-ns-proxy-autoconfig\r\n"))
    requires Nowhere(d, Ascii("/macbinary\r\n")) && FirstAt(d, Ascii("/x-macbinary\r\n"), 0, k)
    ensures FindHeadOffset(d) == k + 16
  {
    ContentTypes();
    TypeFound(d, OctetStream(), k);
    TypeFound(d, ProxyAutoconfig(), k);
    TypeFound(d, MacBinary(), k);
    TypeFound(d, XMacBinary(), k);
  }

  /** Without a type it starts four characters behind the first line end behind a quote behind "filename=". */
  lemma OffsetByName(d: seq<byte>, name: nat, quote: nat, line: nat)
    requires NoContentType(d)
    requires FirstAt(d, Ascii("filename="), 0, name) && FirstAt(d, Ascii("\""), name, quote)
    requires FirstAt(d, Ascii("\r\n"), quote, line)
    ensures FindHeadOffset(d) == line + 4
  {
    NoOffsetByType(d);
    ContentTypes();
    FirstUnique(d, Ascii("filename="), 0, name);
    FirstUnique(d, Ascii("\""), name, quote);
    FirstUnique(d, Ascii("\r\n"), quote, line);
  }

  lemma NoOffsetByType(d: seq<byte>)
    requires NoContentType(d)
    ensures Strstr(d, OctetStream(), 0) < 0 && Strstr(d, ProxyAutoconfig(), 0) < 0
    ensures Strstr(d, MacBinary(), 0) < 0 && Strstr(d, XMacBinary(), 0) < 0
  {
    ContentTypes();
    TypeFound(d, OctetStream(), 0);
    TypeFound(d, ProxyAutoconfig(), 0);
    TypeFound(d, MacBinary(), 0);
    TypeFound(d, XMacBinary(), 0);
  }

  /** Without these either there is no offset. */
  lemma NoOffset(d: seq<byte>)
    requires NoContentType(d)
    requires forall name: nat, quote: nat, line: nat ::
      !(FirstAt(d, Ascii("filename="), 0, name) && FirstAt(d, Ascii("\""), name, quote)
        && FirstAt(d, Ascii("\r\n"), quote, line))
    ensures FindHeadOffset(d) == -1
  {
    NoOffsetByType(d);
    ContentTypes();
    StrstrIs(d, Ascii("filename="), 0);
    var name := Strstr(d, Ascii("filename="), 0);
    if name >= 0 {
      StrstrIs(d, Ascii("\""), name);
      var quote := Strstr(d, Ascii("\""), name);
      if quote >= 0 {
        StrstrIs(d, Ascii("\r\n"), quote);
      }
    }
  }

  /** A file as router_update_firmware passes it on. */
  function Framed(file: seq<byte>): seq<byte> {
    Ascii("/octet-stream") + [CR, LF, CR, LF] + file
  }

  /** "/octet-stream" and two line ends, then the file. */
  lemma FramedBytes(file: seq<byte>)
    ensures Framed(file) == [47, 111, 99, 116, 101, 116, 45, 115, 116, 114, 101, 97, 109, 13, 10, 13, 10] + file
  {
  }

  /** The payload of a framed file is the file, whatever it holds. */
  lemma FramedOffset(file: seq<byte>)
    ensures FindHeadOffset(Framed(file)) == 17 && Framed(file)[17..] == file
  {
    var d := Framed(file);
    assert d[0..15] == OctetStream();
    assert OccursAt(d, OctetStream(), 0);
  }

  /** The framing of router_update_firmware; the file is read in whole. */
  method RouterUpdateFirmware(file: seq<byte>) returns (buff: array<byte>, firmwareLen: nat)
    ensures fresh(buff) && firmwareLen == buff.Length == |file| + 17 && buff[..] == Framed(file)
  {
    buff := new byte[|file| + 17](_ => 0);
    StrcpyAt(buff, 0, OctetStream());
    assert forall k :: 0 <= k < 13 ==> buff[k] == OctetStream()[k] == Ascii("/octet-stream")[k];
    buff[13], buff[14], buff[15], buff[16] := CR, LF, CR, LF;
    assert buff[..17] == Ascii("/octet-stream") + [CR, LF, CR, LF];
    var i := 0;
    while i < |file|
      invariant 0 <= i <= |file| && buff[..17] == Ascii("/octet-stream") + [CR, LF, CR, LF]
      invariant buff[17..17 + i] == file[..i]
    {
      buff[17 + i] := file[i];
      i := i + 1;
    }
    firmwareLen := |file| + 17;
    assert buff[..] == buff[..17] + buff[17..17 + |file|];
  }

  // ----- the checksum of firmware images

  /** The sum of 16-bit words, high byte first. */
  function WordSum(d: seq<byte>): nat {
    if |d| < 2 then 0 else d[0] * 256 + d[1] + WordSum(d[2..])
  }

  predicate SumOk(d: seq<byte>) {
    WordSum(d) % 0x1_0000 == 0
  }

  /** The first n words, one after the other. */
  function Words(d: seq<byte>, n: nat): nat
    requires 2 * n <= |d|
  {
    if n == 0 then 0 else Words(d, n - 1) + (0x100 * (d[2 * n - 2] as int) + d[2 * n - 1])
  }

  lemma {:induction false} WordsFront(d: seq<byte>, e: seq<byte>, n: nat)
    requires 2 * n <= |d| && 2 * n <= |e| && d[..2 * n] == e[..2 * n]
    ensures Words(d, n) == Words(e, n)
  {
    if n > 0 {
      assert d[2 * n - 2] == d[..2 * n][2 * n - 2] && d[2 * n - 1] == d[..2 * n][2 * n - 1];
      assert d[..2 * (n - 1)] == d[..2 * n][..2 * (n - 1)];
      WordsFront(d, e, n - 1);
    }
  }

  /** The sum is that of all words, the high byte of each first. */
  lemma {:induction false} SumOfWords(d: seq<byte>, n: nat)
    requires |d| == 2 * n
    ensures WordSum(d) == Words(d, n)
    decreases n
  {
    if n > 0 {
      var front := d[..2 * (n - 1)];
      assert d == front + [d[2 * n - 2], d[2 * n - 1]];
      WordSumSnoc(front, d[2 * n - 2], d[2 * n - 1]);
      SumOfWords(front, n - 1);
      WordsFront(d, front, n - 1);
    }
  }

  lemma {:induction false} WordSumSnoc(d: seq<byte>, a: byte, b: byte)
    requires |d| % 2 == 0
    ensures WordSum(d + [a, b]) == WordSum(d) + a * 256 + b
  {
    if d == [] {
      assert d + [a, b] == [a, b];
    } else {
      assert (d + [a, b])[2..] == d[2..] + [a, b];
      WordSumSnoc(d[2..], a, b);
    }
  }

  /** The length that the sum really reads: an odd length takes in one byte more, a negative one nothing. */
  function Even(len: int): nat {
    if len < 0 then 0 else len + len % 2
  }

  lemma SumStep(data: seq<byte>, at: nat, i: nat, sum: nat)
    requires at + i + 2 <= |data| && i % 2 == 0 && sum == WordSum(data[at..at + i]) % 0x1_0000
    ensures (sum + data[at + i] as int * 256 + data[at + i + 1] as int) % 0x1_0000
         == WordSum(data[at..at + (i + 2)]) % 0x1_0000
  {
    assert data[at..at + (i + 2)] == data[at..at + i] + [data[at + i], data[at + i + 1]];
    WordSumSnoc(data[at..at + i], data[at + i], data[at + i + 1]);
  }

  method FwChecksumOk(data: seq<byte>, at: nat, len: int) returns (ok: bool)
    requires at + Even(len) <= |data|
    ensures ok == SumOk(data[at..at + Even(len)])
  {
    var sum: nat, i: nat := 0, 0;
    while i < len
      invariant i % 2 == 0 && i <= Even(len)
      invariant sum == WordSum(data[at..at + i]) % 0x1_0000
      decreases len - i
    {
      SumStep(data, at, i, sum);
      sum := (sum + data[at + i] as int * 256 + data[at + i + 1] as int) % 0x1_0000;
      i := i + 2;
    }
    ok := sum == 0;
  }

  lemma {:induction false} WordSumChange(d: seq<byte>, i: nat, b: byte)
    requires |d| % 2 == 0 && i < |d|
    ensures WordSum(d[i := b]) == WordSum(d) + (b as int - d[i] as int) * (if i % 2 == 0 then 256 else 1)
  {
    if i < 2 {
      assert d[i := b][2..] == d[2..];
    } else {
      assert d[i := b][2..] == d[2..][i - 2 := b];
      WordSumChange(d[2..], i - 2, b);
    }
  }

  lemma NotBothZero(x: nat, y: nat, delta: int)
    requires x % 0x1_0000 == 0 && y == x + delta && -0x1_0000 < delta < 0x1_0000 && delta != 0
    ensures y % 0x1_0000 != 0
  {
  }

  /** The sum catches every change of a single byte. */
  lemma OneByteCaught(d: seq<byte>, i: nat, b: byte)
    requires |d| % 2 == 0 && i < |d| && b != d[i] && SumOk(d)
    ensures !SumOk(d[i := b])
  {
    WordSumChange(d, i, b);
    var delta := (b as int - d[i] as int) * (if i % 2 == 0 then 256 else 1);
    NotBothZero(WordSum(d), WordSum(d[i := b]), delta);
  }
}
