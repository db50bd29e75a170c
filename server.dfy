/**
 * `handle_client`: reads one line from the client, classifies it, applies it
 * to the store and writes the reply.
 */
module Server {
  import opened Wire
  import opened KvStore
  import opened LineReader
  import opened Protocol

  /** `char buf[BUF_SIZE]`, the line buffer. */
  const BUF_SIZE: nat := 1024

  const OK_REPLY: seq<Byte> := Ascii("OK\n")
  const NOT_FOUND_REPLY: seq<Byte> := Ascii("NOT_FOUND\n")
  /** The usage literal, 42 bytes with its newline. */
  const USAGE_TEXT: seq<Byte> := Ascii("ERROR: Use SET <key> <value> or GET <key>\n")
  /** The error reply: `write_all` is given a length of 40, so only that much of the literal is sent. */
  const ERROR_REPLY: seq<Byte> := USAGE_TEXT[..40]

  /** The error reply lacks the last two bytes of the literal, `>` and the newline. */
  lemma ErrorReplyIsCut()
    ensures |USAGE_TEXT| == 42 && USAGE_TEXT == ERROR_REPLY + Ascii(">\n")
    ensures NL !in ERROR_REPLY
  {
    assert USAGE_TEXT[40..] == Ascii(">\n");
  }

  /** The store's map and the reply after one classified line. */
  function Dispatch(m: map<seq<Byte>, seq<Byte>>, cmd: Command, allocOk: bool): (r: (map<seq<Byte>, seq<Byte>>, seq<Byte>))
    ensures m.Keys <= r.0.Keys && |r.0.Keys| <= |m.Keys| + 1
    ensures !cmd.Set? ==> r.0 == m
    ensures cmd.Invalid? <==> NL !in r.1
  {
    ErrorReplyIsCut();
    assert OK_REPLY[2] == NL && NOT_FOUND_REPLY[9] == NL;
    match cmd
    case Set(k, v) => (StoreSet(m, k, v, allocOk), OK_REPLY)
    case Get(k) =>
      (m, match MapGet(m, k) case Some(v) => v + [NL] case None => NOT_FOUND_REPLY)
    case Invalid => (m, ERROR_REPLY)
  }

  /** The map and the reply after one line read by `handle_client`. */
  function Serve(m: map<seq<Byte>, seq<Byte>>, line: seq<Byte>, allocOk: bool): (r: (map<seq<Byte>, seq<Byte>>, seq<Byte>))
    ensures m.Keys <= r.0.Keys && |r.0.Keys| <= |m.Keys| + 1
    ensures NL !in r.1 ==> r.0 == m
  {
    Dispatch(m, Parse(CString(line)), allocOk)
  }

  /**
   * The dispatch half of `handle_client`: applies a classified line to the
   * store and writes the reply for it.
   */
  method Respond(store: Store, conn: Connection, cmd: Command, allocOk: bool)
    requires store.Valid()
    requires cmd.Set? ==> IsKey(cmd.key) && IsValue(cmd.value)
    requires cmd.Get? ==> IsKey(cmd.key)
    modifies store, store.buckets, conn
    ensures store.Valid() && store.buckets == old(store.buckets)
    ensures conn.incoming == old(conn.incoming)
    ensures store.contents == Dispatch(old(store.contents), cmd, allocOk).0
    ensures conn.outgoing == old(conn.outgoing) + Dispatch(old(store.contents), cmd, allocOk).1
  {
    match cmd
    case Set(k, v) =>
      store.Set(k, v, allocOk);
      conn.WriteAll(OK_REPLY);
    case Get(k) =>
      var found := store.Get(k);
      match found {
        case Some(v) =>
          // snprintf(out, BUF_SIZE, "%s\n", val) never truncates: values are at most 767 bytes.
          var out := v + [NL];
          assert |out| < BUF_SIZE;
          conn.WriteAll(out);
        case None =>
          conn.WriteAll(NOT_FOUND_REPLY);
      }
    case Invalid =>
      conn.WriteAll(ERROR_REPLY);
  }

  /**
   * `handle_client`: returns 0, changing nothing else, when `read_line`
   * yields no byte or fails; otherwise applies the line to the store, writes
   * the reply and returns 1.
   */
  method HandleClient(store: Store, conn: Connection, allocOk: bool) returns (more: int)
    requires store.Valid()
    modifies store, store.buckets, conn
    ensures store.Valid() && store.buckets == old(store.buckets)
    ensures var (res, rest) := ReadFrom(old(conn.incoming), BUF_SIZE - 1);
      && conn.incoming == rest
      && if res.ReadError? || res.bytes == [] then
           && more == 0
           && store.contents == old(store.contents)
           && unchanged(store.buckets)
           && conn.outgoing == old(conn.outgoing)
         else
           && more == 1
           && store.contents == Serve(old(store.contents), res.bytes, allocOk).0
           && conn.outgoing == old(conn.outgoing) + Serve(old(store.contents), res.bytes, allocOk).1
  {
    var buf := new Byte[BUF_SIZE];
    var n := ReadLine(conn, buf);
    if n <= 0 {
      return 0;
    }
    Respond(store, conn, Parse(CString(buf[..n])), allocOk);
    return 1;
  }

  /**
   * Within one session a GET after a SET of the same key sees the new value:
   * `SET k v` replies `OK\n`, and a following `GET k` replies `v\n`.
   */
  lemma SetThenGet(m: map<seq<Byte>, seq<Byte>>, k: seq<Byte>, v: seq<Byte>, allocOk: bool, allocOk': bool)
    requires IsKey(k) && IsValue(v) && (allocOk || k in m)
    ensures var (m1, r1) := Serve(m, SetLine(k, v), allocOk);
      var (m2, r2) := Serve(m1, GET_WORD + [SPACE] + k + [NL], allocOk');
      r1 == OK_REPLY && r2 == v + [NL] && m2 == m1 && m1 == m[k := v]
  {
    ParseSetLine(k, v);
    ParseGetLine(k, [NL]);
    CStringOfText(SetLine(k, v));
    CStringOfText(GET_WORD + [SPACE] + k + [NL]);
  }

  /** A GET of a key that was never stored replies `NOT_FOUND\n` and changes nothing. */
  lemma GetAbsent(m: map<seq<Byte>, seq<Byte>>, k: seq<Byte>, allocOk: bool)
    requires IsKey(k) && k !in m
    ensures Serve(m, GET_WORD + [SPACE] + k + [NL], allocOk) == (m, NOT_FOUND_REPLY)
  {
    ParseGetLine(k, [NL]);
    CStringOfText(GET_WORD + [SPACE] + k + [NL]);
  }

  /** A SET of a key already stored rebinds it without growing the store. */
  lemma SetOverwrites(m: map<seq<Byte>, seq<Byte>>, k: seq<Byte>, v: seq<Byte>, allocOk: bool)
    requires IsKey(k) && IsValue(v) && k in m
    ensures var m1 := Serve(m, SetLine(k, v), allocOk).0;
      m1.Keys == m.Keys && m1[k] == v
  {
    ParseSetLine(k, v);
    CStringOfText(SetLine(k, v));
  }

  /** `BOGUS foo`, `GET` alone and a lower-case `get k` all get the error reply. */
  lemma MalformedLinesRejected(m: map<seq<Byte>, seq<Byte>>, k: seq<Byte>, allocOk: bool)
    requires IsKey(k)
    ensures Serve(m, Ascii("BOGUS foo\n"), allocOk) == (m, ERROR_REPLY)
    ensures Serve(m, Ascii("GET\n"), allocOk) == (m, ERROR_REPLY)
    ensures Serve(m, Ascii("get ") + k + [NL], allocOk) == (m, ERROR_REPLY)
  {
    BogusLineIsInvalid();
    CStringOfText(Ascii("BOGUS foo\n"));
    BareGetIsInvalid();
    CStringOfText(Ascii("GET\n"));
    LowerCaseKeywordIsInvalid(k);
    CStringOfText(Ascii("get ") + k + [NL]);
  }
}
