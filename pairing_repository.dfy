/**
 * backend/app/repository/pairing.py with the row shape of backend/app/models/pairing.py: the table
 * of one-time pairing codes, modelled as a map from code to row. Clock readings are integer UTC
 * seconds passed in as `now`; the random source of `generate_code` is a nondeterministic choice.
 */
module PairingRepository {
  import opened Wrappers

  /** Default time-to-live of a pairing code, in seconds. */
  const DefaultTtlSeconds: int := 300

  type Byte = b: int | 0 <= b < 256

  predicate IsUpperHexDigit(c: char) {
    '0' <= c <= '9' || 'A' <= c <= 'F'
  }

  function HexDigit(n: nat): (c: char)
    requires n < 16
    ensures IsUpperHexDigit(c)
  {
    if n < 10 then ('0' as int + n) as char else ('A' as int + n - 10) as char
  }

  function HexValue(c: char): (n: nat)
    requires IsUpperHexDigit(c)
    ensures n < 16 && HexDigit(n) == c
  {
    if c <= '9' then c as int - '0' as int else c as int - 'A' as int + 10
  }

  /** `bytes.hex().upper()`: two upper-case hexadecimal digits per byte, high nibble first. */
  function UpperHex(bytes: seq<Byte>): (r: string)
    ensures |r| == 2 * |bytes|
    ensures forall i :: 0 <= i < |r| ==> IsUpperHexDigit(r[i])
  {
    if bytes == [] then []
    else [HexDigit(bytes[0] / 16), HexDigit(bytes[0] % 16)] + UpperHex(bytes[1..])
  }

  predicate IsUpperHexText(s: string) {
    |s| % 2 == 0 && forall i :: 0 <= i < |s| ==> IsUpperHexDigit(s[i])
  }

  /** Reads upper-case hexadecimal text back into bytes. */
  function DecodeHex(s: string): (bytes: seq<Byte>)
    requires IsUpperHexText(s)
    ensures |bytes| == |s| / 2
  {
    if s == [] then []
    else [HexValue(s[0]) * 16 + HexValue(s[1])] + DecodeHex(s[2..])
  }

  lemma {:induction false} DecodeUpperHex(bytes: seq<Byte>)
    ensures DecodeHex(UpperHex(bytes)) == bytes
  {
    if bytes != [] {
      var s := UpperHex(bytes);
      assert s[2..] == UpperHex(bytes[1..]);
      DecodeUpperHex(bytes[1..]);
      assert HexValue(s[0]) == bytes[0] / 16 && HexValue(s[1]) == bytes[0] % 16;
    }
  }

  lemma {:induction false} UpperHexOfDecode(s: string)
    requires IsUpperHexText(s)
    ensures UpperHex(DecodeHex(s)) == s
  {
    if s != [] {
      var b := HexValue(s[0]) * 16 + HexValue(s[1]);
      assert b / 16 == HexValue(s[0]) && b % 16 == HexValue(s[1]);
      UpperHexOfDecode(s[2..]);
      assert DecodeHex(s)[1..] == DecodeHex(s[2..]);
      assert s == [s[0], s[1]] + s[2..];
    }
  }

  /** The format of every pairing code: six characters from `0-9A-F`. */
  predicate IsCode(s: string) {
    |s| == 6 && forall i :: 0 <= i < |s| ==> IsUpperHexDigit(s[i])
  }

  /** `secrets.token_hex(3).upper()`: three random bytes as upper-case hexadecimal. */
  method GenerateCode() returns (code: string)
    ensures IsCode(code)
  {
    var b0: Byte, b1: Byte, b2: Byte :| true;
    code := UpperHex([b0, b1, b2]);
  }

  /** Conversely every six-digit upper-case hex string is the encoding of some three bytes, so all
      16^6 codes can be drawn. */
  lemma EveryCodeCanBeDrawn(code: string)
    requires IsCode(code)
    ensures exists bytes: seq<Byte> :: |bytes| == 3 && UpperHex(bytes) == code
  {
    UpperHexOfDecode(code);
    assert |DecodeHex(code)| == 3;
  }

  /** A row of the `pairing_codes` table; `claimedBy` is never set by the code shown. */
  datatype PairingRow = PairingRow(
    code: string,
    duckColor: string,
    channel: string,
    createdAt: int,
    expiresAt: int,
    claimedBy: Option<string>)

  /** Inserting a code already in the table violates its primary key. */
  datatype StoreError = DuplicateCode(code: string)

  class CodeTable {
    var rows: map<string, PairingRow>

    /** `code` is the primary key: every row sits under its own code, so one row per code. */
    ghost predicate Valid()
      reads this
    {
      forall c :: c in rows ==> rows[c].code == c
    }

    constructor ()
      ensures Valid() && rows == map[]
    {
      rows := map[];
    }

    /**
     * `PairingRepository.create`: stores a row for a freshly drawn code that expires `ttl` seconds
     * after `now`. A drawn code that is already in the table makes the insert fail and stores
     * nothing.
     */
    method Create(duckColor: string, channel: string, now: int, ttl: int := DefaultTtlSeconds)
      returns (r: Result<PairingRow, StoreError>)
      requires Valid()
      modifies this
      ensures Valid()
      ensures r.Success? ==>
        && IsCode(r.value.code)
        && r.value == PairingRow(r.value.code, duckColor, channel, now, now + ttl, None)
        && r.value.code !in old(rows)
        && rows == old(rows)[r.value.code := r.value]
      ensures r.Failure? ==> r.error.code in old(rows) && IsCode(r.error.code) && rows == old(rows)
    {
      var code := GenerateCode();
      if code in rows {
        return Failure(DuplicateCode(code));
      }
      var row := PairingRow(code, duckColor, channel, now, now + ttl, None);
      rows := rows[code := row];
      r := Success(row);
    }

    /** `PairingRepository.get`: the row with that code, or `None`. */
    function Get(code: string): (r: Option<PairingRow>)
      reads this
      requires Valid()
      ensures r.Some? <==> code in rows
      ensures r.Some? ==> r.value == rows[code] && r.value.code == code
    {
      if code in rows then Some(rows[code]) else None
    }

    /** `PairingRepository.delete`: removes that row only; deleting an absent code is a no-op. */
    method Delete(code: string)
      requires Valid()
      modifies this
      ensures Valid()
      ensures rows == old(rows) - {code}
      ensures code !in old(rows) ==> rows == old(rows)
    {
      rows := rows - {code};
    }
  }
}
