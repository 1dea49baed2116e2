/** How SQL text travels from the traced process to the printed line: capture
    into per-CPU scratch, NUL-padded 512-byte buffers, and the final cut. */
module SqlText {
  import opened Machine

  const SQL_MAX: nat := 512

  /** A `[u8; SQL_MAX]` field. */
  type Buffer = s: seq<u8> | |s| == SQL_MAX witness seq(SQL_MAX, i => 0)

  /** The SQL argument of a probed call: a null pointer, or the bytes readable
      from the pointer up to the next unmapped page. */
  datatype UserText = Null | At(mem: seq<u8>)

  function Zeros(n: nat): (r: seq<u8>)
    ensures |r| == n && forall i :: 0 <= i < n ==> r[i] == 0
  {
    seq(n, i => 0)
  }

  /** Length of the NUL-terminated string starting at s[0]; |s| if no NUL. */
  function StrLen(s: seq<u8>): (n: nat)
    ensures n <= |s|
    ensures forall i :: 0 <= i < n ==> s[i] != 0
    ensures n < |s| ==> s[n] == 0
  {
    if |s| == 0 || s[0] == 0 then 0 else 1 + StrLen(s[1..])
  }

  /** bpf_probe_read_user_str_bytes into a 512-byte buffer: at most 511 bytes
      before the terminator; a page fault yields nothing. */
  function ReadUserStr(text: UserText): (r: seq<u8>)
    ensures |r| <= 511
    ensures forall i :: 0 <= i < |r| ==> r[i] != 0
  {
    match text
    case Null => []
    case At(mem) =>
      var window := Min(SQL_MAX, |mem|);
      var n := StrLen(mem[..window]);
      if n < window then mem[..n]
      else if |mem| >= SQL_MAX then mem[..SQL_MAX - 1]
      else []
  }

  /** Value of the WithSql record, as stored in the in-progress maps. */
  datatype WithSql = WithSql(tsNs: u64, attachment: u64, sqlLen: u32, truncated: u32, sql: Buffer)

  function CaptureOf(now: u64, attachment: u64, length: u64, text: UserText): WithSql
  {
    var copied := ReadUserStr(text);
    var sqlLen: u32 := if text.Null? then 0 else if length == 0 then |copied| else length % TWO32;
    var truncated: u32 := if text.At? && |copied| >= SQL_MAX - 1 && length > |copied| then 1 else 0;
    WithSql(now, attachment, sqlLen, truncated, copied + Zeros(SQL_MAX - |copied|))
  }

  /** `sql_str` before UTF-8 decoding: cut at the recorded length, then at the first NUL. */
  function SqlStr(sqlLen: u32, sql: Buffer): seq<u8>
  {
    var trimmed := sql[..Min(sqlLen, SQL_MAX)];
    trimmed[..StrLen(trimmed)]
  }

  /** What the user should see: the string cut at its NUL, at 511 bytes and, if
      a length was declared, at that length. */
  function Intended(text: UserText, declared: u32): (r: seq<u8>)
  {
    var s := ReadUserStr(text);
    if declared == 0 then s else s[..Min(declared, |s|)]
  }

  lemma {:induction false} StrLenUnique(s: seq<u8>, n: nat)
    requires n <= |s|
    requires forall i :: 0 <= i < n ==> s[i] != 0
    requires n < |s| ==> s[n] == 0
    ensures StrLen(s) == n
  {
    if |s| > 0 && s[0] != 0 {
      assert n > 0;
      StrLenUnique(s[1..], n - 1);
    }
  }

  /** The text read is the user's string cut at its NUL and at 511 bytes,
      provided the read does not run off the mapped memory first. */
  lemma ReadIsPrefixToNul(mem: seq<u8>)
    requires StrLen(mem) < |mem| || |mem| >= 512
    ensures ReadUserStr(At(mem)) == mem[..Min(StrLen(mem), 511)]
  {
    var window := Min(512, |mem|);
    StrLenUnique(mem[..window], Min(StrLen(mem), window));
  }

  /** A read that runs off the mapped memory before it meets a NUL or fills the
      buffer delivers nothing. */
  lemma FaultyReadIsEmpty(mem: seq<u8>)
    requires StrLen(mem) == |mem| < 512
    ensures ReadUserStr(At(mem)) == []
  {
    assert mem[..|mem|] == mem;
  }

  /** Capture then decode. The register holding the 32-bit length parameter is
      read as 64 bits: the decoded text is the intended one unless the low half
      of a non-zero register is zero and there was text to lose. */
  lemma DecodedTextIsIntended(now: u64, attachment: u64, length: u64, text: UserText)
    ensures var w := CaptureOf(now, attachment, length, text);
            SqlStr(w.sqlLen, w.sql) == Intended(text, length % TWO32)
            <==> !(length >= TWO32 && length % TWO32 == 0 && |ReadUserStr(text)| > 0)
  {
    var w := CaptureOf(now, attachment, length, text);
    var s := ReadUserStr(text);
    var n := Min(w.sqlLen, 512);
    StrLenUnique(w.sql[..n], Min(n, |s|));
    assert w.sql[..n][..Min(n, |s|)] == s[..Min(n, |s|)];
    assert s[..|s|] == s;
  }

  /** The truncation flag in terms of the read. It says "511 bytes were read and
      more were declared" unless the upper half of the register is dirty while
      511 bytes were read and no more than that was declared. */
  lemma TruncatedFlagIsExact(now: u64, attachment: u64, length: u64, text: UserText)
    ensures var w := CaptureOf(now, attachment, length, text);
            var full := |ReadUserStr(text)| == 511;
            (w.truncated != 0 <==> full && length % TWO32 > 511)
            <==> !(length >= TWO32 && full && length % TWO32 <= 511)
  {
  }

  /** Length of the statement the caller passed: the declared part of the
      string, or all of it when no length is declared. */
  function Whole(mem: seq<u8>, declared: u32): nat {
    if declared == 0 then StrLen(mem) else Min(declared, StrLen(mem))
  }

  lemma FlagBranch(now: u64, attachment: u64, length: u64, text: UserText)
    ensures CaptureOf(now, attachment, length, text).truncated != 0
            <==> |ReadUserStr(text)| == 511 && length > 511
  {
  }

  lemma ReadLength(mem: seq<u8>)
    requires StrLen(mem) < |mem| || |mem| >= 512
    ensures |ReadUserStr(At(mem))| == Min(StrLen(mem), 511)
  {
    ReadIsPrefixToNul(mem);
    hide ReadUserStr;
  }

  /** The case split over string length n and register value behind it. */
  lemma CutCases(n: nat, length: u64, declared: u32)
    requires length < TWO32 ==> declared == length
    ensures var whole := if declared == 0 then n else Min(declared, n);
            ((Min(n, 511) == 511 && length > 511) <==> whole > 511)
            <==> !(length == 0 && n > 511) && !(length > 511 && n == 511)
                 && !(length >= TWO32 && 0 < declared <= 511 && n > 511)
  {
  }

  /** The truncation flag in terms of the statement, for every register value and
      every readable string. The flag says "the statement has more than the 511
      bytes that fit" except in three cases: no length was declared and the
      string is longer; more than 511 bytes were declared over a string of
      exactly 511; or the upper half of the register is dirty while a declared
      length within 511 bytes cut a longer string. */
  lemma TruncatedFlagMeansCut(now: u64, attachment: u64, length: u64, mem: seq<u8>)
    requires StrLen(mem) < |mem| || |mem| >= 512
    ensures var w, declared := CaptureOf(now, attachment, length, At(mem)), length % TWO32;
            (w.truncated != 0 <==> Whole(mem, declared) > 511)
            <==> !(length == 0 && StrLen(mem) > 511)
                 && !(length > 511 && StrLen(mem) == 511)
                 && !(length >= TWO32 && 0 < declared <= 511 && StrLen(mem) > 511)
  {
    hide CaptureOf, ReadUserStr, StrLen;
    ReadLength(mem);
    FlagBranch(now, attachment, length, At(mem));
    CutCases(StrLen(mem), length, length % TWO32);
  }

  /** One CPU's slot of WITH_SQL_SCRATCH. */
  class WithSqlScratch {
    var tsNs: u64
    var attachment: u64
    var sqlLen: u32
    var truncated: u32
    const sql: array<u8>

    ghost predicate Valid() { sql.Length == SQL_MAX }

    function Value(): WithSql
      requires Valid()
      reads this, sql
    {
      WithSql(tsNs, attachment, sqlLen, truncated, sql[..])
    }

    constructor ()
      ensures Valid() && fresh(sql)
    {
      sql := new u8[SQL_MAX];
      tsNs, attachment, sqlLen, truncated := 0, 0, 0, 0;
    }

    /** The scratch-filling part of `try_capture_sql_entry`: whatever an earlier
        probe left in the slot, its new value depends on this call alone. */
    method Capture(now: u64, attachmentPtr: u64, length: u64, text: UserText)
      requires Valid()
      modifies this, sql
      ensures Value() == CaptureOf(now, attachmentPtr, length, text)
    {
      tsNs := now;
      attachment := attachmentPtr;
      sqlLen := length % TWO32;
      truncated := 0;
      forall i | 0 <= i < SQL_MAX { sql[i] := 0; }
      if text.At? {
        var copied := ReadUserStr(text);
        forall i | 0 <= i < |copied| { sql[i] := copied[i]; }
        if length == 0 {
          sqlLen := |copied|;
        }
        if |copied| >= SQL_MAX - 1 && length > |copied| {
          truncated := 1;
        }
      } else {
        sqlLen := 0;
      }
      assert sql[..] == CaptureOf(now, attachmentPtr, length, text).sql;
    }
  }

  /** Value of the PreparedStatement record. */
  datatype Prepared = Prepared(attachment: u64, prepareNs: u64, sqlLen: u32, truncated: u32, sql: Buffer)

  /** One CPU's slot of PREPARED_SCRATCH. */
  class PreparedScratch {
    var attachment: u64
    var prepareNs: u64
    var sqlLen: u32
    var truncated: u32
    const sql: array<u8>

    ghost predicate Valid() { sql.Length == SQL_MAX }

    function Value(): Prepared
      requires Valid()
      reads this, sql
    {
      Prepared(attachment, prepareNs, sqlLen, truncated, sql[..])
    }

    constructor ()
      ensures Valid() && fresh(sql)
    {
      sql := new u8[SQL_MAX];
      attachment, prepareNs, sqlLen, truncated := 0, 0, 0, 0;
    }

    method Fill(entry: WithSql, elapsed: u64)
      requires Valid()
      modifies this, sql
      ensures Value() == Prepared(entry.attachment, elapsed, entry.sqlLen, entry.truncated, entry.sql)
    {
      attachment := entry.attachment;
      prepareNs := elapsed;
      sqlLen := entry.sqlLen;
      truncated := entry.truncated;
      forall i | 0 <= i < SQL_MAX { sql[i] := entry.sql[i]; }
      assert sql[..] == entry.sql;
    }
  }
}
