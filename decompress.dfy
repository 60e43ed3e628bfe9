/**
 * The "common word" decompressor for ROM error text. The dictionary holds the common words
 * back to back, each ending at a byte with its high bit set. A compressed message is a 0xFF
 * marker, then bytes below 128 standing for themselves and bytes of 128 or more standing for
 * dictionary word `byte & 0x7f`, then a 0. Words are set off from their neighbours by spaces.
 */
module RomText {
  import opened IstrConfig

  const SPACE: byte := 0x20
  const MARKER: byte := 0xFF

  /** A dictionary word: non-empty text of 7-bit bytes, none of them 0. */
  predicate WordOk(w: seq<byte>) {
    |w| > 0 && forall i {:trigger TextByte(w[i])} :: 0 <= i < |w| ==> TextByte(w[i])
  }

  /** A byte that may occur in a word: 7-bit and not 0. */
  predicate TextByte(b: byte) {
    0 < b < 0x80
  }

  predicate WordsOk(ws: seq<seq<byte>>) {
    forall i {:trigger WordOk(ws[i])} :: 0 <= i < |ws| ==> WordOk(ws[i])
  }

  /** A word as the dictionary stores it: the high bit set on its final byte. */
  function EncodeWord(w: seq<byte>): (r: seq<byte>)
    ensures |r| == |w|
  {
    seq(|w|, i requires 0 <= i < |w| => if i == |w| - 1 then w[i] | 0x80 else w[i])
  }

  /** The encodings of the first `k` words, back to back. */
  function DictPrefix(ws: seq<seq<byte>>, k: nat): seq<byte>
    requires k <= |ws|
  {
    if k == 0 then [] else DictPrefix(ws, k - 1) + EncodeWord(ws[k - 1])
  }

  /** The dictionary of a list of words: all of their encodings. */
  function EncodeDict(ws: seq<seq<byte>>): seq<byte> {
    DictPrefix(ws, |ws|)
  }

  /** The encodings of the first `k` words are a prefix of the whole dictionary. */
  lemma {:induction false} DictPrefixIsPrefix(ws: seq<seq<byte>>, k: nat)
    requires k <= |ws|
    ensures |DictPrefix(ws, k)| <= |EncodeDict(ws)|
    ensures EncodeDict(ws)[..|DictPrefix(ws, k)|] == DictPrefix(ws, k)
    decreases |ws| - k
  {
    if k < |ws| {
      DictPrefixIsPrefix(ws, k + 1);
      var next := DictPrefix(ws, k + 1);
      assert next[..|DictPrefix(ws, k)|] == DictPrefix(ws, k);
    }
  }

  /** A part of a prefix is the same part of the whole. */
  lemma SliceOfPrefix(all: seq<byte>, head: seq<byte>, tail: seq<byte>)
    requires |head| + |tail| <= |all| && all[..|head| + |tail|] == head + tail
    ensures all[|head|..|head| + |tail|] == tail
  {
    assert all[|head|..|head| + |tail|] == all[..|head| + |tail|][|head|..];
  }

  /** Word `k` is stored right after the encodings of the `k` words before it, at offset `start`. */
  lemma WordAt(dict: seq<byte>, ws: seq<seq<byte>>, k: nat, start: nat)
    requires dict == EncodeDict(ws) && k < |ws| && start == |DictPrefix(ws, k)|
    ensures start + |ws[k]| <= |dict| && dict[start..start + |ws[k]|] == EncodeWord(ws[k])
  {
    DictPrefixIsPrefix(ws, k + 1);
    assert DictPrefix(ws, k + 1) == DictPrefix(ws, k) + EncodeWord(ws[k]);
    SliceOfPrefix(dict, DictPrefix(ws, k), EncodeWord(ws[k]));
  }

  /** Byte `i` of an encoded word: kept as it is with the high bit clear, except the last. */
  lemma EncodedByte(w: seq<byte>, i: nat)
    requires WordOk(w) && i < |w|
    ensures i < |w| - 1 ==> EncodeWord(w)[i] == w[i] && EncodeWord(w)[i] & 0x80 == 0
    ensures i == |w| - 1 ==> EncodeWord(w)[i] & 0x80 != 0 && EncodeWord(w)[i] & 0x7f == w[i]
  {
    assert TextByte(w[i]);
    SevenBit(w[i]);
  }

  lemma SevenBit(b: byte)
    requires b < 0x80
    ensures b & 0x80 == 0 && (b | 0x80) & 0x80 != 0 && (b | 0x80) & 0x7f == b
  {
  }

  /** Reading inside a slice. */
  lemma ByteOfSlice(all: seq<byte>, start: nat, part: seq<byte>, i: nat)
    requires start + |part| <= |all| && all[start..start + |part|] == part && i < |part|
    ensures all[start + i] == part[i]
  {
  }

  /**
   * find_uncompressed_string: skip `n` words, each ending at the first byte with the high bit
   * set. The result is where word `n` starts: the length of the encodings of the words before it.
   */
  method FindUncompressedString(dict: seq<byte>, ghost ws: seq<seq<byte>>, n: nat) returns (c: nat)
    requires dict == EncodeDict(ws) && WordsOk(ws) && n < |ws|
    ensures c == |DictPrefix(ws, n)|
    ensures c + |ws[n]| <= |dict| && dict[c..c + |ws[n]|] == EncodeWord(ws[n])
  {
    c := 0;
    var m := n;
    ghost var k: nat := 0;
    while m > 0
      invariant k + m == n && c == |DictPrefix(ws, k)|
    {
      WordAt(dict, ws, k, c);
      assert WordOk(ws[k]);
      c := SkipPastHighBit(dict, c, ws[k]);
      m := m - 1;
      k := k + 1;
    }
    assert k == n;
    WordAt(dict, ws, n, c);
  }

  /** The inner scan of find_uncompressed_string, over one encoded word starting at `c`. */
  method SkipPastHighBit(dict: seq<byte>, c: nat, ghost w: seq<byte>) returns (c': nat)
    requires WordOk(w) && c + |w| <= |dict| && dict[c..c + |w|] == EncodeWord(w)
    ensures c' == c + |w|
  {
    c' := c;
    ByteOfSlice(dict, c, EncodeWord(w), 0);
    EncodedByte(w, 0);
    while dict[c'] & 0x80 == 0
      invariant c <= c' <= c + |w| - 1
      invariant dict[c'] == EncodeWord(w)[c' - c]
      decreases c + |w| - c'
    {
      EncodedByte(w, c' - c);
      c' := c' + 1;
      ByteOfSlice(dict, c, EncodeWord(w), c' - c);
      EncodedByte(w, c' - c);
    }
    EncodedByte(w, c' - c);
    c' := c' + 1;
  }

  /** The decompressor's state: 0 at the start, 1 after a word, 2 after a literal byte. */
  datatype Mode = Start | AfterWord | AfterLiteral

  /** Every word byte of a message names a dictionary word. */
  predicate IndicesOk(ws: seq<seq<byte>>, body: seq<byte>) {
    forall i {:trigger IndexOk(ws, body[i])} :: 0 <= i < |body| ==> IndexOk(ws, body[i])
  }

  /** A literal byte, or a word byte naming a word of the dictionary. */
  predicate IndexOk(ws: seq<seq<byte>>, b: byte) {
    b >= 0x80 ==> (b & 0x7f) as int < |ws|
  }

  /** The state after the first `k` bytes of the message body. */
  function ModeAt(body: seq<byte>, k: nat): Mode
    requires k <= |body|
  {
    if k == 0 then Start
    else if body[k - 1] >= 0x80 then AfterWord
    else AfterLiteral
  }

  /** The space written before a message byte in state `m`: between a word and its neighbours. */
  function Sep(b: byte, m: Mode): seq<byte> {
    if b >= 0x80 then (if m != Start then [SPACE] else [])
    else (if m == AfterWord then [SPACE] else [])
  }

  /** What a message byte stands for: dictionary word `b & 0x7f`, or the byte itself. */
  function Piece(ws: seq<seq<byte>>, b: byte): seq<byte>
    requires IndexOk(ws, b)
  {
    if b >= 0x80 then ws[(b & 0x7f) as int] else [b]
  }

  /** The output of one message byte in state `m`: the separator, then the word or the byte. */
  function Token(ws: seq<seq<byte>>, b: byte, m: Mode): seq<byte>
    requires IndexOk(ws, b)
  {
    Sep(b, m) + Piece(ws, b)
  }

  /** The decompressed text of the first `k` bytes of a message body. */
  function ExpandTo(ws: seq<seq<byte>>, body: seq<byte>, k: nat): seq<byte>
    requires IndicesOk(ws, body) && k <= |body|
  {
    if k == 0 then []
    else ExpandTo(ws, body, k - 1) + Token(ws, body[k - 1], ModeAt(body, k - 1))
  }

  /** The decompressed text of a message body (the bytes between the marker and the 0). */
  function Expand(ws: seq<seq<byte>>, body: seq<byte>): seq<byte>
    requires IndicesOk(ws, body)
  {
    ExpandTo(ws, body, |body|)
  }

  /** The bytes up to the first 0 (all of `s` if it holds none). */
  function UntilNul(s: seq<byte>): (r: seq<byte>)
    ensures |r| <= |s| && r == s[..|r|] && 0 !in r
    ensures |r| < |s| ==> s[|r|] == 0
    ensures 0 in s ==> |r| < |s|
  {
    if |s| == 0 || s[0] == 0 then []
    else
      var r := [s[0]] + UntilNul(s[1..]);
      assert s == [s[0]] + s[1..];
      r
  }

  /** The body of a compressed message: what follows the marker, up to the terminating 0. */
  function Body(src: seq<byte>): seq<byte>
    requires |src| >= 1
  {
    UntilNul(src[1..])
  }

  /** The text of a prefix of the body is no longer than the text of the whole body. */
  lemma {:induction false} ExpandGrows(ws: seq<seq<byte>>, body: seq<byte>, k: nat)
    requires IndicesOk(ws, body) && k <= |body|
    ensures |ExpandTo(ws, body, k)| <= |Expand(ws, body)|
    decreases |body| - k
  {
    if k < |body| {
      ExpandGrows(ws, body, k + 1);
    }
  }

  /** One more body byte adds its token to the text and sets the mode by its kind. */
  lemma ExpandNext(ws: seq<seq<byte>>, body: seq<byte>, k: nat)
    requires IndicesOk(ws, body) && k < |body|
    ensures IndexOk(ws, body[k])
    ensures ExpandTo(ws, body, k + 1) == ExpandTo(ws, body, k) + Token(ws, body[k], ModeAt(body, k))
    ensures |ExpandTo(ws, body, k + 1)| <= |Expand(ws, body)|
    ensures ModeAt(body, k + 1) == if body[k] >= 0x80 then AfterWord else AfterLiteral
  {
    ExpandGrows(ws, body, k + 1);
  }

  /** A message of literal bytes only decompresses to itself: no spaces are added. */
  lemma {:induction false} LiteralsVerbatim(ws: seq<seq<byte>>, body: seq<byte>, k: nat)
    requires k <= |body| && forall i :: 0 <= i < |body| ==> body[i] < 0x80
    ensures IndicesOk(ws, body) && ExpandTo(ws, body, k) == body[..k]
  {
    assert IndicesOk(ws, body) by {
      forall i | 0 <= i < |body|
        ensures IndexOk(ws, body[i])
      {
      }
    }
    if k > 0 {
      LiteralsVerbatim(ws, body, k - 1);
      assert ModeAt(body, k - 1) != AfterWord;
      assert body[..k] == body[..k - 1] + [body[k - 1]];
    }
  }

  /**
   * The decompressed text holds no 0, so the terminator that mp_decompress_rom_string writes
   * after it is the first 0 of the output: read as a C string, the output is exactly the text.
   */
  lemma {:induction false} ExpandHasNoNul(ws: seq<seq<byte>>, body: seq<byte>, k: nat)
    requires WordsOk(ws) && IndicesOk(ws, body) && 0 !in body && k <= |body|
    ensures 0 !in ExpandTo(ws, body, k)
  {
    if k > 0 {
      ExpandHasNoNul(ws, body, k - 1);
      var b := body[k - 1];
      assert IndexOk(ws, b);
      assert 0 !in Sep(b, ModeAt(body, k - 1));
      if b >= 0x80 {
        var w := ws[(b & 0x7f) as int];
        assert WordOk(w);
        forall i | 0 <= i < |w|
          ensures w[i] != 0
        {
          assert TextByte(w[i]);
        }
      }
      assert 0 !in Piece(ws, b);
    }
  }

  /**
   * A two-word dictionary "cat", "dog" and a message made of a word, a literal run and another
   * word: 0xFF 0x80 'X' 'Y' 0x81 0.
   */
  const CAT_DOG: seq<seq<byte>> := [[0x63, 0x61, 0x74], [0x64, 0x6f, 0x67]]
  const CAT_XY_DOG: seq<byte> := [MARKER, 0x80, 0x58, 0x59, 0x81, 0]

  /** The body of that message: what lies between the marker and the 0. */
  lemma ExampleBody()
    ensures Body(CAT_XY_DOG) == [0x80, 0x58, 0x59, 0x81]
  {
    var body: seq<byte> := [0x80, 0x58, 0x59, 0x81];
    assert CAT_XY_DOG[1..] == body + [0];
    assert UntilNul([0]) == [];
    assert UntilNul(body[3..] + [0]) == body[3..];
    assert UntilNul(body[2..] + [0]) == body[2..];
    assert UntilNul(body[1..] + [0]) == body[1..];
  }

  /**
   * That message decompresses to "cat XY dog": a space between a word and a literal,
   * none between two literals, and none before the opening word.
   */
  lemma ExampleText()
    ensures IndicesOk(CAT_DOG, Body(CAT_XY_DOG))
    ensures Expand(CAT_DOG, Body(CAT_XY_DOG)) == [0x63, 0x61, 0x74, 0x20, 0x58, 0x59, 0x20, 0x64, 0x6f, 0x67]
  {
    ExampleBody();
    var ws := CAT_DOG;
    var body: seq<byte> := [0x80, 0x58, 0x59, 0x81];
    assert (0x80 as byte) & 0x7f == 0 && (0x81 as byte) & 0x7f == 1;
    assert IndexOk(ws, body[0]) && IndexOk(ws, body[3]);
    assert IndicesOk(ws, body);
    ExpandNext(ws, body, 0);
    assert ExpandTo(ws, body, 1) == [0x63, 0x61, 0x74];
    ExpandNext(ws, body, 1);
    assert ExpandTo(ws, body, 2) == [0x63, 0x61, 0x74, 0x20, 0x58];
    ExpandNext(ws, body, 2);
    assert ExpandTo(ws, body, 3) == [0x63, 0x61, 0x74, 0x20, 0x58, 0x59];
    ExpandNext(ws, body, 3);
  }

  /** The buffer `d` after the bytes of `x` are stored one by one from position `j` on. */
  function Splice(d: seq<byte>, j: nat, x: seq<byte>): (r: seq<byte>)
    requires j + |x| <= |d|
    ensures |r| == |d|
    decreases |x|
  {
    if |x| == 0 then d else Splice(d[j := x[0]], j + 1, x[1..])
  }

  lemma SpliceEmpty(d: seq<byte>, j: nat)
    requires j <= |d|
    ensures Splice(d, j, []) == d
  {
  }

  lemma SpliceUpdate(d: seq<byte>, k: nat, b: byte)
    requires k < |d|
    ensures d[k := b] == Splice(d, k, [b])
  {
    assert [b][1..] == [];
  }

  /** Writing `x` and then `y` right after it writes `x + y`. */
  lemma {:induction false} SpliceTwice(d: seq<byte>, j: nat, x: seq<byte>, y: seq<byte>)
    requires j + |x| + |y| <= |d|
    ensures Splice(Splice(d, j, x), j + |x|, y) == Splice(d, j, x + y)
    decreases |x|
  {
    if |x| == 0 {
      assert x + y == y;
    } else {
      assert (x + y)[0] == x[0] && (x + y)[1..] == x[1..] + y;
      SpliceTwice(d[j := x[0]], j + 1, x[1..], y);
    }
  }

  /** What a splice holds: the old bytes before `j`, then `x`, then the old bytes after `x`. */
  lemma {:induction false} SpliceIsConcat(d: seq<byte>, j: nat, x: seq<byte>)
    requires j + |x| <= |d|
    ensures Splice(d, j, x) == d[..j] + x + d[j + |x|..]
    decreases |x|
  {
    if |x| == 0 {
      assert d[..j] + x + d[j..] == d;
    } else {
      var e := d[j := x[0]];
      var t := x[1..];
      SpliceIsConcat(e, j + 1, t);
      var l, r := e[..j + 1], e[j + 1 + |t|..];
      assert l == d[..j] + [x[0]];
      assert r == d[j + |x|..];
      assert x == [x[0]] + t;
      assert l + t + r == d[..j] + x + d[j + |x|..];
    }
  }

  /** Write one byte at the output position and move past it. */
  method Put(dst: array<byte>, j: nat, b: byte) returns (j': nat)
    requires j < dst.Length
    modifies dst
    ensures j' == j + 1 && dst[..] == Splice(old(dst[..]), j, [b])
  {
    SpliceUpdate(dst[..], j, b);
    dst[j] := b;
    j' := j + 1;
  }

  /** Find word `n` of the dictionary and copy it to `dst` at position `j`. */
  method CopyWord(dst: array<byte>, j: nat, dict: seq<byte>, ghost ws: seq<seq<byte>>, n: nat)
      returns (j': nat)
    requires dict == EncodeDict(ws) && WordsOk(ws) && n < |ws|
    requires j + |ws[n]| <= dst.Length
    modifies dst
    ensures j' == j + |ws[n]| && dst[..] == Splice(old(dst[..]), j, ws[n])
  {
    var start := FindUncompressedString(dict, ws, n);
    j' := CopyEncoded(dst, j, dict, start, ws[n]);
  }

  /**
   * The copy loop for one word: the bytes before the one with the high bit go out as they are,
   * that byte with its high bit cleared; the output position moves past the word.
   */
  method CopyEncoded(dst: array<byte>, j: nat, dict: seq<byte>, start: nat, ghost w: seq<byte>)
      returns (j': nat)
    requires WordOk(w) && start + |w| <= |dict| && dict[start..start + |w|] == EncodeWord(w)
    requires j + |w| <= dst.Length
    modifies dst
    ensures j' == j + |w| && dst[..] == Splice(old(dst[..]), j, w)
  {
    ghost var d0 := dst[..];
    ghost var enc := EncodeWord(w);
    var word := start;
    j' := j;
    ByteOfSlice(dict, start, enc, 0);
    SpliceEmpty(d0, j);
    assert w[..0] == [];
    while dict[word] & 0x80 == 0
      invariant start <= word <= start + |w| - 1 && j' == j + (word - start)
      invariant dict[word] == enc[word - start]
      invariant dst[..] == Splice(d0, j, w[..word - start])
      decreases start + |w| - word
    {
      EncodedByte(w, word - start);
      Write(dst, d0, j, j', w[..word - start], dict[word]);
      assert w[..word + 1 - start] == w[..word - start] + [w[word - start]];
      j', word := j' + 1, word + 1;
      ByteOfSlice(dict, start, enc, word - start);
    }
    EncodedByte(w, word - start);
    assert word - start == |w| - 1 && dict[word] & 0x7f == w[|w| - 1];
    assert w[..word - start] + [dict[word] & 0x7f] == w;
    Write(dst, d0, j, j', w[..word - start], dict[word] & 0x7f);
    j' := j' + 1;
  }

  /** One byte more of a run written from `j`: the run `x` grows to `x + [b]`. */
  method Write(dst: array<byte>, ghost d0: seq<byte>, ghost j: nat, k: nat, ghost x: seq<byte>, b: byte)
    requires k == j + |x| && k < dst.Length == |d0| && dst[..] == Splice(d0, j, x)
    modifies dst
    ensures dst[..] == Splice(d0, j, x + [b])
  {
    SpliceUpdate(dst[..], k, b);
    dst[k] := b;
    SpliceTwice(d0, j, x, [b]);
  }

  /** The output of one body byte: an optional space, then the word or the literal byte. */
  method EmitToken(dst: array<byte>, j: nat, dict: seq<byte>, ghost ws: seq<seq<byte>>, b: byte, state: Mode)
      returns (j': nat)
    requires dict == EncodeDict(ws) && WordsOk(ws) && IndexOk(ws, b)
    requires j + |Token(ws, b, state)| <= dst.Length
    modifies dst
    ensures j' == j + |Token(ws, b, state)| && dst[..] == Splice(old(dst[..]), j, Token(ws, b, state))
  {
    ghost var d0 := dst[..];
    ghost var sp: seq<byte> := [];
    SpliceEmpty(d0, j);
    j' := j;
    if b >= 0x80 {
      if state != Start {
        j' := Put(dst, j', SPACE);
        sp := [SPACE];
      }
      ghost var d1 := dst[..];
      j' := CopyWord(dst, j', dict, ws, (b & 0x7f) as nat);
      SpliceTwice(d0, j, sp, ws[(b & 0x7f) as int]);
    } else {
      if state == AfterWord {
        j' := Put(dst, j', SPACE);
        sp := [SPACE];
      }
      j' := Put(dst, j', b);
      SpliceTwice(d0, j, sp, [b]);
    }
  }

  /**
   * One round of the loop of mp_decompress_rom_string: body byte `k` (the byte `b`) is expanded
   * after the text of the bytes before it, and the mode moves on.
   */
  method ExpandByte(dst: array<byte>, j: nat, dict: seq<byte>, ghost ws: seq<seq<byte>>,
                    ghost body: seq<byte>, ghost k: nat, b: byte, state: Mode, ghost d0: seq<byte>)
      returns (j': nat, state': Mode)
    requires dict == EncodeDict(ws) && WordsOk(ws) && IndicesOk(ws, body)
    requires k < |body| && b == body[k] && |Expand(ws, body)| < |d0| == dst.Length
    requires state == ModeAt(body, k) && j == |ExpandTo(ws, body, k)| <= |Expand(ws, body)|
    requires dst[..] == Splice(d0, 0, ExpandTo(ws, body, k))
    modifies dst
    ensures state' == ModeAt(body, k + 1)
    ensures j' == |ExpandTo(ws, body, k + 1)| <= |Expand(ws, body)|
    ensures dst[..] == Splice(d0, 0, ExpandTo(ws, body, k + 1))
  {
    ghost var before := ExpandTo(ws, body, k);
    ghost var token := Token(ws, b, state);
    ExpandNext(ws, body, k);
    SpliceTwice(d0, 0, before, token);
    j' := EmitToken(dst, j, dict, ws, b, state);
    state' := if b >= 0x80 then AfterWord else AfterLiteral;
  }

  /**
   * mp_decompress_rom_string: skip the marker, expand each byte of the body into `dst`, and
   * terminate the text with a 0. `dst` must hold the expanded text and its terminator; bytes
   * after the terminator are not touched.
   */
  method DecompressRomString(dst: array<byte>, src: seq<byte>, dict: seq<byte>, ghost ws: seq<seq<byte>>)
    requires |src| >= 1 && 0 in src[1..]
    requires dict == EncodeDict(ws) && WordsOk(ws) && IndicesOk(ws, Body(src))
    requires |Expand(ws, Body(src))| + 1 <= dst.Length
    modifies dst
    ensures dst[..|Expand(ws, Body(src))| + 1] == Expand(ws, Body(src)) + [0]
    ensures dst[|Expand(ws, Body(src))| + 1..] == old(dst[|Expand(ws, Body(src))| + 1..])
  {
    ghost var d0 := dst[..];
    ghost var rest := src[1..];
    ghost var body := Body(src);
    ghost var out := Expand(ws, body);
    var i := 1;
    var j := 0;
    var state := Start;
    ghost var n: nat := 0;
    SpliceEmpty(d0, 0);
    assert rest[0] == src[1];
    assert |body| < |rest| && rest[|body|] == 0 && body == rest[..|body|];
    while src[i] != 0
      invariant i == n + 1 && n <= |body| && src[i] == rest[n]
      invariant state == ModeAt(body, n)
      invariant j == |ExpandTo(ws, body, n)| <= |out|
      invariant dst[..] == Splice(d0, 0, ExpandTo(ws, body, n))
      decreases |body| - n
    {
      assert n < |body| && src[i] == body[n];
      j, state := ExpandByte(dst, j, dict, ws, body, n, src[i], state, d0);
      i, n := i + 1, n + 1;
      assert src[i] == rest[n];
    }
    assert n == |body|;
    Write(dst, d0, 0, j, out, 0);
    SpliceIsConcat(d0, 0, out + [0]);
    assert (d0[..0] + (out + [0]) + d0[|out| + 1..])[|out| + 1..] == d0[|out| + 1..];
  }
}
