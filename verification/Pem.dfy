/**
 The base64 text of trusted_hash_attester's tpm.rs, in lines of 64 characters,
 and an independent reader of the alphabet and padding of section 4 of RFC 4648.
 */
module Pem {
  import opened Bits
  import opened Options

  const LINE: nat := 64

  // ---------------------------------------------------------------------
  // The alphabet
  // ---------------------------------------------------------------------

  const UPPER: string := "ABCDEFGHIJKLMNOPQRSTUVWXYZ"
  const LOWER: string := "abcdefghijklmnopqrstuvwxyz"
  const TABLE: string := UPPER + LOWER + "0123456789+/"

  function Symbol(v: nat): char
    requires v < 64
  {
    TABLE[v]
  }

  /** The value of a character of the alphabet, by its range. */
  function SymbolValue(c: char): Option<nat> {
    if 'A' <= c <= 'Z' then Some(c as int - 'A' as int)
    else if 'a' <= c <= 'z' then Some(c as int - 'a' as int + 26)
    else if '0' <= c <= '9' then Some(c as int - '0' as int + 52)
    else if c == '+' then Some(62)
    else if c == '/' then Some(63)
    else None
  }

  lemma SymbolFirst(v: nat)
    requires 0 <= v < 16
    ensures SymbolValue(Symbol(v)) == Some(v) && Symbol(v) != '=' && Symbol(v) != '\n'
  {
  }

  lemma SymbolSecond(v: nat)
    requires 16 <= v < 32
    ensures SymbolValue(Symbol(v)) == Some(v) && Symbol(v) != '=' && Symbol(v) != '\n'
  {
  }

  lemma SymbolThird(v: nat)
    requires 32 <= v < 48
    ensures SymbolValue(Symbol(v)) == Some(v) && Symbol(v) != '=' && Symbol(v) != '\n'
  {
  }

  lemma SymbolFourth(v: nat)
    requires 48 <= v < 64
    ensures SymbolValue(Symbol(v)) == Some(v) && Symbol(v) != '=' && Symbol(v) != '\n'
  {
  }

  lemma SymbolRoundTrip(v: nat)
    requires v < 64
    ensures SymbolValue(Symbol(v)) == Some(v) && Symbol(v) != '=' && Symbol(v) != '\n'
  {
    if v < 16 {
      SymbolFirst(v);
    } else if v < 32 {
      SymbolSecond(v);
    } else if v < 48 {
      SymbolThird(v);
    } else {
      SymbolFourth(v);
    }
  }

  // ---------------------------------------------------------------------
  // Groups of three bytes
  // ---------------------------------------------------------------------

  /** The four characters of a chunk of one to three bytes. */
  function Group(chunk: seq<byte>): (g: string)
    requires 1 <= |chunk| <= 3
    ensures |g| == 4
  {
    var b0 := chunk[0] as int;
    var b1 := if |chunk| > 1 then chunk[1] as int else 0;
    var b2 := if |chunk| > 2 then chunk[2] as int else 0;
    var n := b0 * 0x1_0000 + b1 * 0x100 + b2;
    [Symbol(n / 0x4_0000 % 64), Symbol(n / 0x1000 % 64),
     if |chunk| > 1 then Symbol(n / 64 % 64) else '=',
     if |chunk| > 2 then Symbol(n % 64) else '=']
  }

  function Base64(data: seq<byte>): string
    decreases |data|
  {
    if |data| == 0 then ""
    else if |data| <= 3 then Group(data)
    else Group(data[..3]) + Base64(data[3..])
  }

  /** The bytes of a group; padding only where it is allowed, with zero bits under it. */
  function ReadGroup(g: string, last: bool): Option<seq<byte>>
    requires |g| == 4
  {
    var v0, v1, v2, v3 := SymbolValue(g[0]), SymbolValue(g[1]), SymbolValue(g[2]), SymbolValue(g[3]);
    if v0.None? || v1.None? then None
    else
      var first := (v0.value * 4 + v1.value / 16) % 0x100;
      if last && g[2] == '=' && g[3] == '=' && v1.value % 16 == 0 then Some([first])
      else if v2.None? then None
      else
        var second := (v1.value % 16 * 16 + v2.value / 4) % 0x100;
        if last && g[3] == '=' && v2.value % 4 == 0 then Some([first, second])
        else if v3.None? then None
        else Some([first, second, (v2.value % 4 * 64 + v3.value) % 0x100])
  }

  function ReadBase64(text: string): Option<seq<byte>>
    decreases |text|
  {
    if text == "" then Some([])
    else if |text| < 4 then None
    else
      match ReadGroup(text[..4], |text| == 4)
      case None => None
      case Some(chunk) =>
        match ReadBase64(text[4..])
        case None => None
        case Some(rest) => Some(chunk + rest)
  }

  lemma Digits64(a: nat, b: nat, c: nat, d: nat)
    requires a < 64 && b < 64 && c < 64 && d < 64
    ensures var n := a * 0x4_0000 + b * 0x1000 + c * 64 + d;
            n / 0x4_0000 % 64 == a && n / 0x1000 % 64 == b && n / 64 % 64 == c && n % 64 == d
  {
    var n := a * 0x4_0000 + b * 0x1000 + c * 64 + d;
    assert n / 64 == a * 0x1000 + b * 64 + c;
    assert n / 0x1000 == a * 64 + b;
    assert n / 0x4_0000 == a;
  }

  /** Regrouping three bytes into four six-bit values. */
  lemma SixBits(b0: byte, b1: byte, b2: byte)
    ensures var n := b0 as int * 0x1_0000 + b1 as int * 0x100 + b2 as int;
            && n / 0x4_0000 % 64 == b0 as int / 4
            && n / 0x1000 % 64 == b0 as int % 4 * 16 + b1 as int / 16
            && n / 64 % 64 == b1 as int % 16 * 4 + b2 as int / 64
            && n % 64 == b2 as int % 64
  {
    Digits64(b0 as int / 4, b0 as int % 4 * 16 + b1 as int / 16, b1 as int % 16 * 4 + b2 as int / 64,
             b2 as int % 64);
  }

  /** And back. */
  lemma EightBits(b0: byte, b1: byte, b2: byte)
    ensures var v0, v1 := b0 as int / 4, b0 as int % 4 * 16 + b1 as int / 16;
            var v2, v3 := b1 as int % 16 * 4 + b2 as int / 64, b2 as int % 64;
            && v0 < 64 && v1 < 64 && v2 < 64 && v3 < 64
            && v0 * 4 + v1 / 16 == b0 as int && v1 % 16 * 16 + v2 / 4 == b1 as int
            && v2 % 4 * 64 + v3 == b2 as int
            && (b1 == 0 ==> v1 % 16 == 0) && (b2 == 0 ==> v2 % 4 == 0)
  {
  }

  lemma GroupRoundTrip(chunk: seq<byte>, last: bool)
    requires 1 <= |chunk| <= 3 && (|chunk| < 3 ==> last)
    ensures ReadGroup(Group(chunk), last) == Some(chunk)
  {
    hide Symbol, SymbolValue, Group, ReadGroup;
    var b0 := chunk[0];
    var b1: byte := if |chunk| > 1 then chunk[1] else 0;
    var b2: byte := if |chunk| > 2 then chunk[2] else 0;
    SixBits(b0, b1, b2);
    EightBits(b0, b1, b2);
    var v0, v1 := b0 as int / 4, b0 as int % 4 * 16 + b1 as int / 16;
    var v2, v3 := b1 as int % 16 * 4 + b2 as int / 64, b2 as int % 64;
    SymbolRoundTrip(v0);
    SymbolRoundTrip(v1);
    SymbolRoundTrip(v2);
    SymbolRoundTrip(v3);
    NoPadValue();
    GroupOf(chunk, b0, b1, b2, v0, v1, v2, v3);
    ReadsGroup(Group(chunk), last, v0, v1, v2, v3, |chunk|);
    assert chunk == if |chunk| == 1 then [b0] else if |chunk| == 2 then [b0, b1] else [b0, b1, b2];
  }

  lemma GroupStaysOnLine(chunk: seq<byte>)
    requires 1 <= |chunk| <= 3
    ensures '\n' !in Group(chunk)
  {
    hide Symbol;
    forall i | 0 <= i < 4 ensures Group(chunk)[i] != '\n' {
      SymbolOnLine();
    }
  }

  lemma SymbolOnLine()
    ensures forall v :: 0 <= v < 64 ==> Symbol(v) != '\n'
  {
  }

  lemma GroupOf(chunk: seq<byte>, b0: byte, b1: byte, b2: byte, v0: nat, v1: nat, v2: nat, v3: nat)
    requires 1 <= |chunk| <= 3 && v0 < 64 && v1 < 64 && v2 < 64 && v3 < 64
    requires b0 == chunk[0] && b1 == (if |chunk| > 1 then chunk[1] else 0)
    requires b2 == (if |chunk| > 2 then chunk[2] else 0)
    requires var n := b0 as int * 0x1_0000 + b1 as int * 0x100 + b2 as int;
             n / 0x4_0000 % 64 == v0 && n / 0x1000 % 64 == v1 && n / 64 % 64 == v2 && n % 64 == v3
    ensures Group(chunk) == [Symbol(v0), Symbol(v1), if |chunk| > 1 then Symbol(v2) else '=',
                             if |chunk| > 2 then Symbol(v3) else '=']
  {
    hide Symbol;
  }

  lemma ReadsGroup(g: string, last: bool, v0: nat, v1: nat, v2: nat, v3: nat, size: nat)
    requires |g| == 4 && 1 <= size <= 3 && (size < 3 ==> last)
    requires SymbolValue(g[0]) == Some(v0) && SymbolValue(g[1]) == Some(v1) && SymbolValue('=') == None
    requires if size > 1 then SymbolValue(g[2]) == Some(v2) else g[2] == '=' && v1 % 16 == 0
    requires if size > 2 then SymbolValue(g[3]) == Some(v3) else g[3] == '='
    requires size == 2 ==> v2 % 4 == 0
    requires v0 < 64 && v1 < 64 && v2 < 64 && v3 < 64
    ensures ReadGroup(g, last)
            == Some(if size == 1 then [v0 * 4 + v1 / 16]
                    else if size == 2 then [v0 * 4 + v1 / 16, v1 % 16 * 16 + v2 / 4]
                    else [v0 * 4 + v1 / 16, v1 % 16 * 16 + v2 / 4, v2 % 4 * 64 + v3])
  {
    hide SymbolValue;
    if size == 1 {
    } else if size == 2 {
      assert g[2] != '=';
    } else {
      assert g[2] != '=' && g[3] != '=';
    }
  }

  lemma NoPadValue()
    ensures SymbolValue('=') == None
  {
  }

  lemma {:induction false} Base64RoundTrip(data: seq<byte>)
    ensures ReadBase64(Base64(data)) == Some(data)
    ensures '\n' !in Base64(data) && |Base64(data)| % 4 == 0
    ensures data != [] ==> |Base64(data)| >= 4
    decreases |data|
  {
    hide Group, ReadGroup;
    if |data| == 0 {
    } else if |data| <= 3 {
      GroupRoundTrip(data, true);
      GroupStaysOnLine(data);
      var g := Group(data);
      assert g[..4] == g && g[4..] == "" && data + [] == data;
    } else {
      var g, rest := Group(data[..3]), Base64(data[3..]);
      GroupRoundTrip(data[..3], false);
      GroupStaysOnLine(data[..3]);
      Base64RoundTrip(data[3..]);
      assert (g + rest)[..4] == g && (g + rest)[4..] == rest && data[..3] + data[3..] == data;
    }
  }

  // ---------------------------------------------------------------------
  // Lines
  // ---------------------------------------------------------------------

  /** Lines of 64 characters, the last one possibly shorter, each ended by a newline. */
  function Wrapped(text: string): string
    decreases |text|
  {
    if text == "" then ""
    else if |text| <= LINE then text + "\n"
    else text[..LINE] + "\n" + Wrapped(text[LINE..])
  }

  function WithoutNewlines(text: string): string
    decreases |text|
  {
    if text == "" then ""
    else (if text[0] == '\n' then "" else [text[0]]) + WithoutNewlines(text[1..])
  }

  lemma {:induction false} WithoutNewlinesConcat(a: string, b: string)
    ensures WithoutNewlines(a + b) == WithoutNewlines(a) + WithoutNewlines(b)
    decreases |a|
  {
    if a == "" {
      assert a + b == b;
    } else {
      assert (a + b)[1..] == a[1..] + b;
      WithoutNewlinesConcat(a[1..], b);
    }
  }

  lemma {:induction false} NoNewlines(a: string)
    requires '\n' !in a
    ensures WithoutNewlines(a) == a
    decreases |a|
  {
    if a != "" {
      NoNewlines(a[1..]);
    }
  }

  lemma {:induction false} WrappedReads(text: string)
    requires '\n' !in text
    ensures WithoutNewlines(Wrapped(text)) == text
    decreases |text|
  {
    if text == "" {
    } else if |text| <= LINE {
      WithoutNewlinesConcat(text, "\n");
      NoNewlines(text);
    } else {
      WrappedReads(text[LINE..]);
      NoNewlines(text[..LINE]);
      WithoutNewlinesConcat(text[..LINE] + "\n", Wrapped(text[LINE..]));
      WithoutNewlinesConcat(text[..LINE], "\n");
      assert text[..LINE] + text[LINE..] == text;
    }
  }

  /** A newline stands after every 64 characters and at the end, nowhere else. */
  lemma {:induction false} LineBreaks(text: string, k: nat)
    requires '\n' !in text && k < |Wrapped(text)|
    ensures Wrapped(text)[k] == '\n' <==> k % 65 == 64 || k == |Wrapped(text)| - 1
    decreases |text|
  {
    if |text| <= LINE {
      assert k < |text| ==> text[k] in text;
    } else if k <= LINE {
      assert k < LINE ==> text[k] in text;
      assert Wrapped(text[LINE..]) != "";
    } else {
      LineBreaks(text[LINE..], k - LINE - 1);
    }
  }

  // ---------------------------------------------------------------------
  // The writer
  // ---------------------------------------------------------------------

  /** Full lines ended, the last partial line still open. */
  function Open(text: string): string
    decreases |text|
  {
    if |text| < LINE then text
    else text[..LINE] + "\n" + Open(text[LINE..])
  }

  lemma {:induction false} OpenPush(text: string, c: char)
    ensures Open(text + [c]) == Open(text) + [c] + (if (|text| + 1) % LINE == 0 then "\n" else "")
    decreases |text|
  {
    var more := text + [c];
    if |text| < LINE {
      if |more| == LINE {
        assert more[..LINE] == more && more[LINE..] == "" && Open("") == "";
      }
    } else {
      OpenPush(text[LINE..], c);
      assert more[..LINE] == text[..LINE] && more[LINE..] == text[LINE..] + [c];
      OpenLine(text);
      OpenLine(more);
      hide Open;
      assert (|more| - LINE) % LINE == |more| % LINE;
    }
  }

  lemma OpenLine(text: string)
    requires |text| >= LINE
    ensures Open(text) == text[..LINE] + "\n" + Open(text[LINE..])
  {
  }

  lemma {:induction false} OpenClosed(text: string)
    ensures Open(text) + (if |text| % LINE != 0 then "\n" else "") == Wrapped(text)
    decreases |text|
  {
    if |text| == LINE {
      assert text[..LINE] == text && text[LINE..] == "";
    } else if |text| > LINE {
      OpenClosed(text[LINE..]);
    }
  }

  lemma {:induction false} Base64Extend(data: seq<byte>, chunk: seq<byte>)
    requires |data| % 3 == 0 && 1 <= |chunk| <= 3
    ensures Base64(data + chunk) == Base64(data) + Group(chunk)
    decreases |data|
  {
    if data == [] {
      assert data + chunk == chunk;
    } else {
      assert (data + chunk)[..3] == data[..3] && (data + chunk)[3..] == data[3..] + chunk;
      Base64Extend(data[3..], chunk);
      if |data| == 3 {
        assert data[..3] == data && Base64(data[3..]) == "";
      }
    }
  }

  lemma TextStart()
    ensures Base64([]) == "" && Open("") == ""
  {
  }

  method PemBase64(data: seq<byte>) returns (out: string)
    ensures out == Wrapped(Base64(data))
    ensures ReadBase64(WithoutNewlines(out)) == Some(data)
  {
    hide Group, Base64, Open, Wrapped, ReadBase64, WithoutNewlines;
    TextStart();
    out := "";
    var lineLen := 0;
    ghost var text := "";
    var i := 0;
    while i < |data|
      invariant 0 <= i && (i <= |data| ==> text == Base64(data[..i])) && (i > |data| ==> text == Base64(data))
      invariant i < |data| ==> i % 3 == 0
      invariant out == Open(text) && lineLen == |text| % LINE
    {
      var end := if i + 3 <= |data| then i + 3 else |data|;
      var chunk := data[i..end];
      assert data[..i] + chunk == data[..end];
      Base64Extend(data[..i], chunk);
      var chars := Group(chunk);
      out, lineLen := PushChars(out, lineLen, chars, text);
      text := text + chars;
      i := i + 3;
      assert end == |data| ==> data[..end] == data;
    }
    assert data[..|data|] == data;
    OpenClosed(text);
    if lineLen != 0 {
      out := out + ['\n'];
    }
    Base64RoundTrip(data);
    WrappedReads(Base64(data));
  }

  /** Appends characters, breaking the line whenever it is full. */
  method PushChars(before: string, len: nat, chars: string, ghost text: string)
    returns (out: string, lineLen: nat)
    requires before == Open(text) && len == |text| % LINE
    ensures out == Open(text + chars) && lineLen == |text + chars| % LINE
  {
    out, lineLen := before, len;
    assert text + chars[..0] == text;
    for j := 0 to |chars|
      invariant out == Open(text + chars[..j]) && lineLen == |text + chars[..j]| % LINE
    {
      OpenPush(text + chars[..j], chars[j]);
      assert text + chars[..j] + [chars[j]] == text + chars[..j + 1];
      out := out + [chars[j]];
      lineLen := lineLen + 1;
      if lineLen == LINE {
        out := out + ['\n'];
        lineLen := 0;
      }
    }
    assert chars[..|chars|] == chars;
  }
}
