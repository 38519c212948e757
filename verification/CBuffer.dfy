/**
 Character buffers as the printers of the server use them: text is appended behind a moving index,
 and a buffer is read as the C string it starts with.
 */
module CBuffer {

  const IRCD_BUFSIZE: nat := 512

  // The C string at the start of a buffer.
  function CString(buf: seq<char>): string {
    if buf == [] || buf[0] == '\0' then "" else [buf[0]] + CString(buf[1..])
  }

  predicate IsText(s: string) { '\0' !in s }

  lemma {:induction false} CStringIs(buf: seq<char>, s: string)
    requires IsText(s) && |s| < |buf| && buf[..|s|] == s && buf[|s|] == '\0'
    ensures CString(buf) == s
  {
    if s != "" {
      assert buf[0] == s[0];
      assert buf[1..][..|s| - 1] == s[1..];
      CStringIs(buf[1..], s[1..]);
      assert s == [s[0]] + s[1..];
    }
  }

  // What strlcpy keeps of a string in a buffer for n characters and the NUL.
  function Cut(s: string, n: nat): string { if |s| <= n then s else s[..n] }

  // A line as sendto_one lets it leave the server: cut to 510 characters, and ended.
  function Sent(line: string): string { Cut(line, IRCD_BUFSIZE - 2) + "\r\n" }

  // What a client finds behind the header of a line.
  function Body(header: string, sent: string): string {
    if |header| + 2 <= |sent| then sent[|header|..|sent| - 2] else ""
  }

  // How many characters of the text behind the header get through.
  function Room(header: string): nat {
    if |header| <= IRCD_BUFSIZE - 2 then IRCD_BUFSIZE - 2 - |header| else 0
  }

  lemma BodyIsCut(header: string, text: string)
    ensures Body(header, Sent(header + text)) == Cut(text, Room(header))
  {
    var line := header + text;
    var kept := Cut(line, IRCD_BUFSIZE - 2);
    assert (kept + "\r\n")[..|kept|] == kept;
    if |header| <= |kept| {
      assert kept == header + Cut(text, Room(header));
      assert kept[|header|..] == Cut(text, Room(header));
    }
  }

  // ircsprintf(buf + at, "%s", s): the text and its NUL; returns the length written.
  method Write(buf: array<char>, at: nat, s: string) returns (l: nat)
    requires at + |s| < buf.Length
    modifies buf
    ensures l == |s| && buf[..at + l] == old(buf[..at]) + s && buf[at + l] == '\0'
  {
    l := 0;
    while l < |s|
      invariant l <= |s| && buf[..at + l] == old(buf[..at]) + s[..l]
    {
      buf[at + l] := s[l];
      l := l + 1;
      assert buf[..at + l] == buf[..at + l - 1] + [s[l - 1]];
      assert s[..l] == s[..l - 1] + [s[l - 1]];
    }
    assert s[..l] == s;
    ghost var written := buf[..at + l];
    buf[at + l] := '\0';
    assert buf[..at + l] == written;
  }

  // *pb++ = c
  method Put(buf: array<char>, at: nat, c: char) returns (pb: nat)
    requires at < buf.Length
    modifies buf
    ensures pb == at + 1 && buf[..pb] == old(buf[..at]) + [c]
  {
    buf[at] := c;
    pb := at + 1;
    assert buf[..pb] == buf[..at] + [c];
    assert buf[..at] == old(buf[..at]);
  }
}
