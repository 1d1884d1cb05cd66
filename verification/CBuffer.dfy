/** C strings inside a byte buffer: strlen, sprintf into the buffer, strcat and memcpy. */
module CBuffer {
  import opened Word32
  import opened TextFormat

  lemma {:induction false} CStringOf(text: seq<byte>, rest: seq<byte>)
    requires ZeroFree(text)
    ensures CString(text + [0] + rest) == text
  {
    SpanOf(text, [0] + rest, NotZero);
    assert text + [0] + rest == text + ([0] + rest);
  }

  /** A C string that starts at `a` and ends before the first zero byte from there on, at `b`. */
  lemma {:induction false} CStringAt(s: seq<byte>, a: nat, b: nat)
    requires a <= b < |s| && s[b] == 0 && ZeroFree(s[a..b])
    ensures CString(s[a..]) == s[a..b] && 0 in s[a..]
  {
    CStringOf(s[a..b], s[b + 1..]);
    assert s[a..] == s[a..b] + [0] + s[b + 1..];
    assert s[a..][b - a] == 0;
  }

  lemma {:induction false} CStringInFront(s: seq<byte>, text: seq<byte>)
    requires |text| < |s| && s[..|text|] == text && s[|text|] == 0 && ZeroFree(text)
    ensures CString(s) == text && 0 in s
  {
    CStringOf(text, s[|text| + 1..]);
    assert s == text + [0] + s[|text| + 1..];
  }

  lemma {:induction false} CStringShape(s: seq<byte>)
    requires 0 in s
    ensures |CString(s)| < |s| && s[|CString(s)|] == 0 && ZeroFree(CString(s))
  {
    if s[0] != 0 {
      CStringShape(s[1..]);
      assert CString(s) == [s[0]] + CString(s[1..]);
    }
  }

  method StrLen(buf: array<byte>) returns (n: nat)
    requires 0 in buf[..]
    ensures n < buf.Length && buf[n] == 0 && ZeroFree(buf[..n])
    ensures CString(buf[..]) == buf[..n]
  {
    n := 0;
    while buf[n] != 0
      invariant n < buf.Length && ZeroFree(buf[..n]) && 0 in buf[n..]
      decreases buf.Length - n
    {
      assert 0 in buf[n + 1..];
      n := n + 1;
    }
    CStringOf(buf[..n], buf[n + 1..]);
    assert buf[..] == buf[..n] + [0] + buf[n + 1..];
  }

  /** sprintf of an already formatted text at position `at`, terminator included. */
  method PutText(buf: array<byte>, at: nat, text: seq<byte>)
    requires at + |text| < buf.Length
    modifies buf
    ensures buf[..] == old(buf[..at]) + text + [0] + old(buf[at + |text| + 1..])
  {
    PutBytes(buf, at, text);
    buf[at + |text|] := 0;
  }

  /** memcpy to position `at`. */
  method PutBytes(buf: array<byte>, at: nat, data: seq<byte>)
    requires at + |data| <= buf.Length
    modifies buf
    ensures buf[..] == old(buf[..at]) + data + old(buf[at + |data|..])
  {
    for i := 0 to |data|
      invariant forall j :: 0 <= j < buf.Length && !(at <= j < at + i) ==> buf[j] == old(buf[j])
      invariant forall j :: 0 <= j < i ==> buf[at + j] == data[j]
    {
      buf[at + i] := data[i];
    }
  }

  /** sprintf of a text to the start of the buffer. */
  method StartText(buf: array<byte>, text: seq<byte>)
    requires ZeroFree(text) && |text| < buf.Length
    modifies buf
    ensures CString(buf[..]) == text && 0 in buf[..]
    ensures buf[..|text|] == text && buf[|text|] == 0 && buf[|text| + 1..] == old(buf[|text| + 1..])
  {
    PutText(buf, 0, text);
    assert buf[..|text|] == text && buf[..][|text|] == 0;
    assert buf[..][|text| + 1..] == old(buf[|text| + 1..]);
    CStringInFront(buf[..], text);
  }

  /** memcpy to a position behind the C string, which stays. */
  method PutBehind(buf: array<byte>, at: nat, data: seq<byte>, ghost text: seq<byte>)
    requires |text| < at && at + |data| <= buf.Length
    requires buf[..|text|] == text && buf[|text|] == 0 && ZeroFree(text)
    modifies buf
    ensures CString(buf[..]) == text && 0 in buf[..]
    ensures buf[at..at + |data|] == data && buf[at + |data|..] == old(buf[at + |data|..])
  {
    PutBytes(buf, at, data);
    assert buf[..][..at] == old(buf[..at]);
    assert buf[..|text|] == buf[..][..at][..|text|] && buf[|text|] == buf[..][..at][|text|];
    assert buf[..][at..at + |data|] == data;
    assert buf[..][at + |data|..] == old(buf[at + |data|..]);
    CStringInFront(buf[..], text);
  }

  /** strcat. */
  method Append(buf: array<byte>, text: seq<byte>)
    requires 0 in buf[..] && ZeroFree(text) && |CString(buf[..])| + |text| < buf.Length
    modifies buf
    ensures CString(buf[..]) == old(CString(buf[..])) + text && 0 in buf[..]
  {
    var n := StrLen(buf);
    ghost var front := buf[..n];
    PutText(buf, n, text);
    CStringOf(front + text, buf[n + |text| + 1..]);
    assert buf[..] == front + text + [0] + buf[n + |text| + 1..];
    assert buf[..][n + |text|] == 0;
  }

  /** The C string that starts at `at`. */
  method TextFrom(buf: array<byte>, at: nat) returns (text: seq<byte>)
    requires at <= buf.Length && 0 in buf[at..]
    ensures text == CString(buf[at..])
  {
    var n := at;
    while buf[n] != 0
      invariant at <= n < buf.Length && ZeroFree(buf[at..n]) && 0 in buf[n..]
      decreases buf.Length - n
    {
      assert 0 in buf[n + 1..];
      n := n + 1;
    }
    CStringAt(buf[..], at, n);
    assert buf[..][at..] == buf[at..];
    text := buf[at..n];
  }
}
