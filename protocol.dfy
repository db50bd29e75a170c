/**
 * Request classification in `handle_client`: the two `sscanf` patterns
 * "SET %255s %767[^\n]" and "GET %255s", tried in that order on the C string
 * held in the line buffer.
 */
module Protocol {
  import opened Wire

  /** What `handle_client` makes of one line. */
  datatype Command = Set(key: seq<Byte>, value: seq<Byte>) | Get(key: seq<Byte>) | Invalid

  /** The width of `%255s`. */
  const KEY_FIELD: nat := 255
  /** The width of `%767[^\n]`. */
  const VALUE_FIELD: nat := 767

  const SET_WORD: seq<Byte> := Ascii("SET")
  const GET_WORD: seq<Byte> := Ascii("GET")

  /** `isspace` in the C locale: space, tab, newline, vertical tab, form feed, carriage return. */
  predicate IsSpace(c: Byte)
  {
    c == SPACE || 9 <= c <= 13
  }

  /** The two conversions the patterns use: `%s` and `%[^\n]`. */
  datatype Conversion = Word | ToNewline

  predicate Accepts(conv: Conversion, c: Byte)
  {
    match conv
    case Word => !IsSpace(c)
    case ToNewline => c != NL
  }

  /** A space in the format: skips zero or more white-space bytes from `i`. */
  function SkipSpace(s: seq<Byte>, i: nat): (j: nat)
    requires i <= |s|
    ensures i <= j <= |s|
    ensures forall x :: i <= x < j ==> IsSpace(s[x])
    ensures j < |s| ==> !IsSpace(s[j])
    decreases |s| - i
  {
    if i < |s| && IsSpace(s[i]) then SkipSpace(s, i + 1) else i
  }

  /**
   * A conversion of maximum width `width` from `i`: the end of the longest
   * run of accepted bytes that fits the width.
   */
  function Scan(s: seq<Byte>, i: nat, width: nat, conv: Conversion): (j: nat)
    requires i <= |s|
    ensures i <= j <= |s| && j - i <= width
    ensures forall x :: i <= x < j ==> Accepts(conv, s[x])
    ensures j < |s| && j - i < width ==> !Accepts(conv, s[j])
    decreases |s| - i
  {
    if i < |s| && width > 0 && Accepts(conv, s[i]) then Scan(s, i + 1, width - 1, conv) else i
  }

  /** A space directive facing `n` white-space bytes and then a byte that is not. */
  lemma SkipSpaceExact(s: seq<Byte>, i: nat, n: nat)
    requires i + n <= |s|
    requires forall x :: i <= x < i + n ==> IsSpace(s[x])
    requires i + n == |s| || !IsSpace(s[i + n])
    ensures SkipSpace(s, i) == i + n
  {
  }

  /** A conversion facing `n` accepted bytes, where it must stop. */
  lemma ScanExact(s: seq<Byte>, i: nat, width: nat, conv: Conversion, n: nat)
    requires i + n <= |s| && n <= width
    requires forall x :: i <= x < i + n ==> Accepts(conv, s[x])
    requires i + n == |s| || n == width || !Accepts(conv, s[i + n])
    ensures Scan(s, i, width, conv) == i + n
  {
  }

  /** What `%255s` can store: one to 255 bytes, none of them white space. */
  predicate IsKey(k: seq<Byte>)
  {
    1 <= |k| <= KEY_FIELD && NoNul(k) && forall i :: 0 <= i < |k| ==> !IsSpace(k[i])
  }

  /**
   * What `%767[^\n]` can store after a space directive: one to 767 bytes, no
   * newline, and not starting with white space.
   */
  predicate IsValue(v: seq<Byte>)
  {
    1 <= |v| <= VALUE_FIELD && NoNul(v) && !IsSpace(v[0]) && forall i :: 0 <= i < |v| ==> v[i] != NL
  }

  /** `sscanf(buf, "SET %255s %767[^\n]", key, value) == 2`, and what it stores. */
  function ScanSet(s: seq<Byte>): (r: Option<(seq<Byte>, seq<Byte>)>)
    ensures r.Some? ==> var (k, v) := r.value;
      && |s| >= 3 && s[..3] == SET_WORD
      && 1 <= |k| <= KEY_FIELD && (forall i :: 0 <= i < |k| ==> !IsSpace(k[i]))
      && 1 <= |v| <= VALUE_FIELD && !IsSpace(v[0]) && (forall i :: 0 <= i < |v| ==> v[i] != NL)
      && (NoNul(s) ==> NoNul(k) && NoNul(v))
  {
    if |s| < 3 || s[..3] != SET_WORD then None
    else
      var k0 := SkipSpace(s, 3);
      var k1 := Scan(s, k0, KEY_FIELD, Word);
      if k1 == k0 then None
      else
        var v0 := SkipSpace(s, k1);
        var v1 := Scan(s, v0, VALUE_FIELD, ToNewline);
        if v1 == v0 then None else Some((s[k0..k1], s[v0..v1]))
  }

  /** `sscanf(buf, "GET %255s", key) == 1`, and what it stores. */
  function ScanGet(s: seq<Byte>): (r: Option<seq<Byte>>)
    ensures r.Some? ==>
      && |s| >= 3 && s[..3] == GET_WORD
      && 1 <= |r.value| <= KEY_FIELD && (forall i :: 0 <= i < |r.value| ==> !IsSpace(r.value[i]))
      && (NoNul(s) ==> NoNul(r.value))
  {
    if |s| < 3 || s[..3] != GET_WORD then None
    else
      var k0 := SkipSpace(s, 3);
      var k1 := Scan(s, k0, KEY_FIELD, Word);
      if k1 == k0 then None else Some(s[k0..k1])
  }

  /**
   * The classification of a line: the SET pattern first, then the GET
   * pattern. Keywords match case-sensitively and only at the very start.
   */
  function Parse(line: seq<Byte>): (cmd: Command)
    requires NoNul(line)
    ensures cmd.Set? ==> |line| >= 3 && line[..3] == SET_WORD && IsKey(cmd.key) && IsValue(cmd.value)
    ensures cmd.Get? ==> |line| >= 3 && line[..3] == GET_WORD && IsKey(cmd.key)
  {
    match ScanSet(line)
    case Some((k, v)) => Set(k, v)
    case None =>
      match ScanGet(line)
      case Some(k) => Get(k)
      case None => Invalid
  }

  /** The request line a client sends to store `v` under `k`. */
  function SetLine(k: seq<Byte>, v: seq<Byte>): seq<Byte>
  {
    SET_WORD + [SPACE] + k + [SPACE] + v + [NL]
  }

  lemma SetLineIsText(k: seq<Byte>, v: seq<Byte>)
    requires NoNul(k) && NoNul(v)
    ensures NoNul(SetLine(k, v))
  {
    var s := SetLine(k, v);
    forall i | 0 <= i < |s|
      ensures s[i] != NUL
    {
      if 4 <= i < 4 + |k| {
        assert s[i] == k[i - 4];
      } else if 5 + |k| <= i < 5 + |k| + |v| {
        assert s[i] == v[i - 5 - |k|];
      }
    }
  }

  /** The key conversion of the SET pattern stops right after the key. */
  lemma SetLineKey(k: seq<Byte>, v: seq<Byte>)
    requires IsKey(k) && IsValue(v)
    ensures var s := SetLine(k, v);
      SkipSpace(s, 3) == 4 && Scan(s, 4, KEY_FIELD, Word) == 4 + |k| && s[4..4 + |k|] == k
  {
    var s := SetLine(k, v);
    var n := |k|;
    assert s[3] == SPACE && s[4] == k[0] && s[4 + n] == SPACE;
    SkipSpaceExact(s, 3, 1);
    forall x | 4 <= x < 4 + n
      ensures Accepts(Word, s[x])
    {
      assert s[x] == k[x - 4];
    }
    ScanExact(s, 4, KEY_FIELD, Word, n);
    assert s[4..4 + n] == k;
  }

  /** The value conversion of the SET pattern takes the rest of the line up to its newline. */
  lemma SetLineValue(k: seq<Byte>, v: seq<Byte>)
    requires IsKey(k) && IsValue(v)
    ensures var s := SetLine(k, v); var b := 5 + |k|;
      SkipSpace(s, b - 1) == b && Scan(s, b, VALUE_FIELD, ToNewline) == b + |v| && s[b..b + |v|] == v
  {
    var s := SetLine(k, v);
    var b := 5 + |k|;
    assert s[b - 1] == SPACE && s[b] == v[0] && s[b + |v|] == NL;
    SkipSpaceExact(s, b - 1, 1);
    forall x | b <= x < b + |v|
      ensures Accepts(ToNewline, s[x])
    {
      assert s[x] == v[x - b];
    }
    ScanExact(s, b, VALUE_FIELD, ToNewline, |v|);
    assert s[b..b + |v|] == v;
  }

  /** A well-formed SET line is classified as that SET. */
  lemma ParseSetLine(k: seq<Byte>, v: seq<Byte>)
    requires IsKey(k) && IsValue(v)
    ensures NoNul(SetLine(k, v)) && Parse(SetLine(k, v)) == Set(k, v)
  {
    SetLineIsText(k, v);
    SetLineKey(k, v);
    SetLineValue(k, v);
    assert SetLine(k, v)[..3] == SET_WORD;
  }

  /**
   * A GET line is classified as that GET, whatever follows the key after
   * white space.
   */
  lemma ParseGetLine(k: seq<Byte>, tail: seq<Byte>)
    requires IsKey(k) && NoNul(tail) && (tail == [] || IsSpace(tail[0]))
    ensures NoNul(GET_WORD + [SPACE] + k + tail) && Parse(GET_WORD + [SPACE] + k + tail) == Get(k)
  {
    var s := GET_WORD + [SPACE] + k + tail;
    var n := |k|;
    assert s[..3] == GET_WORD && GET_WORD[0] != SET_WORD[0];
    assert forall i :: 0 <= i < n ==> s[4 + i] == k[i];
    assert 4 + n < |s| ==> s[4 + n] == tail[0];
    assert SkipSpace(s, 3) == 4;
    assert Scan(s, 4, KEY_FIELD, Word) == 4 + n;
    assert s[4..4 + n] == k;
    assert NoNul(s);
  }

  /** A SET line without a value matches neither pattern. */
  lemma SetWithoutValueIsInvalid(k: seq<Byte>, tail: seq<Byte>)
    requires IsKey(k) && NoNul(tail) && forall i :: 0 <= i < |tail| ==> IsSpace(tail[i])
    ensures Parse(SET_WORD + [SPACE] + k + tail) == Invalid
  {
    var s := SET_WORD + [SPACE] + k + tail;
    var n := |k|;
    assert s[..3] == SET_WORD && GET_WORD[0] != SET_WORD[0];
    assert forall i :: 0 <= i < n ==> s[4 + i] == k[i];
    assert forall i :: 0 <= i < |tail| ==> s[4 + n + i] == tail[i];
    assert 4 + n < |s| ==> s[4 + n] == tail[0];
    assert SkipSpace(s, 3) == 4;
    assert Scan(s, 4, KEY_FIELD, Word) == 4 + n;
    assert SkipSpace(s, 4 + n) == |s|;
    assert NoNul(s);
  }

  /** In a SET line with a long key, the key conversion stops at its width. */
  lemma LongKeyIsCut(k: seq<Byte>, v: seq<Byte>)
    requires |k| > KEY_FIELD && forall i :: 0 <= i < |k| ==> !IsSpace(k[i])
    ensures var s := SetLine(k, v);
      SkipSpace(s, 3) == 4 && Scan(s, 4, KEY_FIELD, Word) == 4 + KEY_FIELD && s[4..4 + KEY_FIELD] == k[..KEY_FIELD]
  {
    var s := SetLine(k, v);
    assert s[3] == SPACE && s[4] == k[0];
    SkipSpaceExact(s, 3, 1);
    forall x | 4 <= x < 4 + KEY_FIELD
      ensures Accepts(Word, s[x])
    {
      assert s[x] == k[x - 4];
    }
    ScanExact(s, 4, KEY_FIELD, Word, KEY_FIELD);
    assert s[4..4 + KEY_FIELD] == k[..KEY_FIELD];
  }

  /** In a SET line with a long key, the value conversion starts right at the cut. */
  lemma LongKeyRestIsValue(k: seq<Byte>, v: seq<Byte>)
    requires |k| > KEY_FIELD && forall i :: 0 <= i < |k| ==> !IsSpace(k[i])
    requires IsValue(v) && |k| - KEY_FIELD + 1 + |v| <= VALUE_FIELD
    ensures var s := SetLine(k, v); var c := 4 + KEY_FIELD; var e := 5 + |k| + |v|;
      && SkipSpace(s, c) == c && Scan(s, c, VALUE_FIELD, ToNewline) == e
      && s[c..e] == k[KEY_FIELD..] + [SPACE] + v
  {
    var s := SetLine(k, v);
    var n := |k|;
    var c, e := 4 + KEY_FIELD, 5 + n + |v|;
    assert s[c] == k[KEY_FIELD] && s[e] == NL;
    SkipSpaceExact(s, c, 0);
    forall x | c <= x < e
      ensures Accepts(ToNewline, s[x])
    {
      if x < 4 + n {
        assert s[x] == k[x - 4];
      } else if x > 4 + n {
        assert s[x] == v[x - 5 - n];
      }
    }
    ScanExact(s, c, VALUE_FIELD, ToNewline, e - c);
    assert s[c..e] == k[KEY_FIELD..] + [SPACE] + v;
  }

  /**
   * A key longer than `%255s` allows is cut after 255 bytes, and the bytes
   * past the cut become the start of the value.
   */
  lemma LongKeySpillsIntoValue(k: seq<Byte>, v: seq<Byte>)
    requires |k| > KEY_FIELD && NoNul(k) && forall i :: 0 <= i < |k| ==> !IsSpace(k[i])
    requires IsValue(v) && |k| - KEY_FIELD + 1 + |v| <= VALUE_FIELD
    ensures Parse(SetLine(k, v)) == Set(k[..KEY_FIELD], k[KEY_FIELD..] + [SPACE] + v)
  {
    LongKeyIsCut(k, v);
    LongKeyRestIsValue(k, v);
    assert SetLine(k, v)[..3] == SET_WORD;
    SetLineIsText(k, v);
  }

  /** `BOGUS foo` starts with neither keyword. */
  lemma BogusLineIsInvalid()
    ensures NoNul(Ascii("BOGUS foo\n")) && Parse(Ascii("BOGUS foo\n")) == Invalid
  {
    var s := Ascii("BOGUS foo\n");
    assert s[0] == 66 && s[3] == 85;
  }

  /** `GET` with no key fails its conversion. */
  lemma BareGetIsInvalid()
    ensures NoNul(Ascii("GET\n")) && Parse(Ascii("GET\n")) == Invalid
  {
    var s := Ascii("GET\n");
    assert s[..3] == GET_WORD && s[0] != SET_WORD[0];
    SkipSpaceExact(s, 3, 1);
  }

  /** Keywords are matched case-sensitively: `get k` is not a GET. */
  lemma LowerCaseKeywordIsInvalid(k: seq<Byte>)
    requires IsKey(k)
    ensures NoNul(Ascii("get ") + k + [NL]) && Parse(Ascii("get ") + k + [NL]) == Invalid
  {
    var s := Ascii("get ") + k + [NL];
    assert forall i :: 0 <= i < |k| ==> s[4 + i] == k[i];
    assert s[0] == 103 && s[0] != SET_WORD[0] && s[0] != GET_WORD[0];
  }
}
