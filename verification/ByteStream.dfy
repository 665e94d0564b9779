/** A connection read by exact amounts. */
module ByteStream {
  import opened Bytes

  class Stream {
    var rest: bytes     // what the peer sent and nobody has read yet, up to end of stream
    var written: bytes  // what was sent to the peer
    ghost var failures: nat  // writes that failed

    constructor (input: bytes)
      ensures rest == input && written == [] && failures == 0
    {
      rest, written, failures := input, [], 0;
    }

    /** `None` when the stream ends first. */
    method ReadExact(n: nat) returns (r: Option<bytes>)
      modifies this`rest
      ensures n <= |old(rest)| ==> r == Some(old(rest)[..n]) && rest == old(rest)[n..]
      ensures n > |old(rest)| ==> r == None && rest == []
    {
      if n > |rest| {
        rest := [];
        return None;
      }
      r := Some(rest[..n]);
      rest := rest[n..];
    }

    /** Read `n` bytes more behind `full`, which is what was read before. */
    method Extend(full: bytes, n: nat) returns (r: Option<bytes>)
      modifies this`rest
      ensures var s := full + old(rest);
              if |full| + n <= |s| then r == Some(s[..|full| + n]) && rest == s[|full| + n..] else r == None
    {
      ghost var s := full + rest;
      var more := ReadExact(n);
      if more.None? {
        return None;
      }
      assert s[..|full| + n] == full + more.value;
      r := Some(full + more.value);
    }

    /** Write and flush. The peer may go away before all of it is out. */
    method WriteAll(data: bytes) returns (ok: bool)
      modifies this`written, this`failures
      ensures old(written) <= written <= old(written) + data
      ensures ok ==> written == old(written) + data
      ensures failures == if ok then old(failures) else old(failures) + 1
    {
      var out :| 0 <= out <= |data|;
      written := written + data[..out];
      ok := out == |data|;
      if * {
        ok := false;
      }
      failures := if ok then failures else failures + 1;
    }
  }
}
