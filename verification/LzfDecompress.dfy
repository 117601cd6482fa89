/** `lzf_decompress`: the token loop over an output buffer that is read while it is written. */
module LzfDecompress {
  import opened Bytes
  import opened LzfFormat

  datatype Errno = None | E2BIG | EINVAL

  /** The literal run of the decompressor: `*op++ = *ip++`, `count` times. */
  method CopyLiteral(input: seq<byte>, ip: nat, output: array<byte>, op: nat, count: nat)
    requires ip + count <= |input| && op + count <= output.Length
    modifies output
    ensures output[..op + count] == old(output[..op]) + input[ip..ip + count]
  {
    var k := 0;
    while k < count
      invariant 0 <= k <= count
      invariant output[..op + k] == old(output[..op]) + input[ip..ip + k]
    {
      output[op + k] := input[ip + k];
      k := k + 1;
      assert output[..op + k] == output[..op + k - 1] + [input[ip + k - 1]];
    }
  }

  /** The back reference of the decompressor: `*op++ = *ref++`, where `ref` is `off + 1`
      bytes behind `op` and may run into the bytes being written. */
  method CopyRef(output: array<byte>, op: nat, off: nat, count: nat)
    requires off < op && op + count <= output.Length
    modifies output
    ensures output[..op + count] == CopyBack(old(output[..op]), off, count)
  {
    var k := 0;
    while k < count
      invariant 0 <= k <= count
      invariant CopyBack(output[..op + k], off, count - k) == CopyBack(old(output[..op]), off, count)
    {
      ghost var done := output[..op + k];
      output[op + k] := output[op + k - off - 1];
      k := k + 1;
      assert output[..op + k] == done + [done[|done| - 1 - off]];
    }
  }

  function ErrnoOf(r: Result): Errno {
    if r == TooBig then E2BIG else if r == Invalid then EINVAL else None
  }

  /** One turn of the token loop on a literal run. */
  method LiteralRun(input: seq<byte>, ip0: nat, output: array<byte>, op: nat)
    returns (ip: nat, op': nat, errno: Errno)
    requires ip0 < |input| && op <= output.Length && input[ip0] < 32
    modifies output
    ensures match ReadToken(input[ip0..], op, output.Length)
            case Got(t, k) => errno == None && t.Literal? && ip == ip0 + k && op' == op + t.Size()
                              && op' <= output.Length && output[..op'] == old(output[..op]) + t.bytes
            case Stop(error) => errno == ErrnoOf(error) != None
  {
    var count: int := input[ip0] + 1;
    ip, op', errno := ip0 + 1, op, None;
    if op + count > output.Length { errno := E2BIG; return; }
    if ip + count > |input| { errno := EINVAL; return; }
    CopyLiteral(input, ip, output, op, count);
    ip, op' := ip + count, op + count;
    assert input[ip0..][1..1 + count] == input[ip0 + 1..ip];
  }

  /** One turn of the token loop on a back reference. */
  method BackReference(input: seq<byte>, ip0: nat, output: array<byte>, op: nat)
    returns (ip: nat, op': nat, errno: Errno)
    requires ip0 < |input| && op <= output.Length && input[ip0] >= 32
    modifies output
    ensures match ReadToken(input[ip0..], op, output.Length)
            case Got(t, k) => errno == None && t.BackRef? && t.off < op && ip == ip0 + k && op' == op + t.Size()
                              && op' <= output.Length && output[..op'] == CopyBack(old(output[..op]), t.off, t.len)
            case Stop(error) => errno == ErrnoOf(error) != None
  {
    var ctrl: int := input[ip0];
    ip, op', errno := ip0 + 1, op, None;
    var len := ctrl / 32;
    var back := ctrl % 32 * 256 + 1;
    if ip >= |input| { errno := EINVAL; return; }
    if len == 7 {
      len := len + input[ip];
      ip := ip + 1;
      if ip >= |input| { errno := EINVAL; return; }
    }
    back := back + input[ip];
    ip := ip + 1;
    if op + len + 2 > output.Length { errno := E2BIG; return; }
    if back > op { errno := EINVAL; return; }
    CopyRef(output, op, back - 1, len + 2);
    op' := op + len + 2;
  }

  /** The result is `Decode` of the input, with the decoded text left in the buffer.
      The first byte is read before the length is looked at, so the input is not empty. */
  method Decompress(input: seq<byte>, output: array<byte>) returns (n: nat, errno: Errno)
    requires input != []
    modifies output
    ensures match Decode(input, [], output.Length)
            case Ok(text) => errno == None && n == |text| && n <= output.Length && output[..n] == text
            case TooBig => errno == E2BIG && n == 0
            case Invalid => errno == EINVAL && n == 0
  {
    var ip, op := 0, 0;
    while ip < |input|
      invariant 0 <= ip <= |input| && 0 <= op <= output.Length
      invariant Decode(input[ip..], output[..op], output.Length) == Decode(input, [], output.Length)
    {
      ghost var s := input[ip..];
      ghost var r := ReadToken(s, op, output.Length);
      if input[ip] < 32 {
        ip, op, errno := LiteralRun(input, ip, output, op);
      } else {
        ip, op, errno := BackReference(input, ip, output, op);
      }
      if errno != None { return 0, errno; }
      assert input[ip..] == s[r.size..];
    }
    return op, None;
  }
}
