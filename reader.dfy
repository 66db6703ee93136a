/** `read_and_process_token`: read a token file in `fgets` chunks into a growing
    heap buffer, dropping the '\n' that ends each chunk, and hand a non-empty result
    to the JWT decoder. */
module TokenReader {
  import opened Bytes
  import Jwt
  import opened Log

  /** `sizeof(buffer)` for the fgets buffer, and the initial `malloc` of the token. */
  const BufferSize: nat := 4096

  /** A file as `fopen` and `fgets` see it: whether it opens, and its bytes. */
  datatype File = File(opens: bool, content: seq<Byte>)

  /** Where the chunk fgets reads from pos ends: after the first '\n', after `room`
      bytes, or at the end of the file, whichever comes first. */
  function ChunkEnd(content: seq<Byte>, pos: nat, room: nat): (e: nat)
    requires pos < |content| && 0 < room
    ensures pos < e <= |content| && e - pos <= room
    ensures forall k :: pos <= k < e - 1 ==> content[k] != Newline
    ensures content[e - 1] == Newline || e - pos == room || e == |content|
    decreases room
  {
    if content[pos] == Newline || room == 1 || pos + 1 == |content| then pos + 1
    else ChunkEnd(content, pos + 1, room - 1)
  }

  /** s with every '\n' left out, every other byte kept in order. */
  function RemoveNewlines(s: seq<Byte>): (r: seq<Byte>)
    ensures |r| <= |s| && Newline !in r
  {
    if s == [] then [] else (if s[0] == Newline then [] else [s[0]]) + RemoveNewlines(s[1..])
  }

  /** Removing newlines distributes over concatenation. */
  lemma {:induction false} RemoveNewlinesAppend(a: seq<Byte>, b: seq<Byte>)
    ensures RemoveNewlines(a + b) == RemoveNewlines(a) + RemoveNewlines(b)
  {
    if a != [] {
      assert (a + b)[0] == a[0] && (a + b)[1..] == a[1..] + b;
      RemoveNewlinesAppend(a[1..], b);
      var head := if a[0] == Newline then [] else [a[0]];
      assert RemoveNewlines(a + b) == head + (RemoveNewlines(a[1..]) + RemoveNewlines(b));
      assert RemoveNewlines(a) == head + RemoveNewlines(a[1..]);
    } else {
      assert a + b == b;
    }
  }

  /** Bytes other than '\n' (a '\r' among them) are all kept. */
  lemma {:induction false} KeepsOtherBytes(s: seq<Byte>)
    requires Newline !in s
    ensures RemoveNewlines(s) == s
  {
    if s != [] {
      KeepsOtherBytes(s[1..]);
    }
  }

  /** Nothing is left exactly when the text is all '\n'. */
  lemma {:induction false} EmptyWhenOnlyNewlines(s: seq<Byte>)
    ensures RemoveNewlines(s) == [] <==> forall k :: 0 <= k < |s| ==> s[k] == Newline
  {
    if s != [] {
      EmptyWhenOnlyNewlines(s[1..]);
      assert forall k :: 1 <= k < |s| ==> s[k] == s[1..][k - 1];
    }
  }

  /** The chunk after the newline check of xsa.c:149-152: without its final byte when that is a '\n'. */
  function Stripped(chunk: seq<Byte>): seq<Byte>
    requires chunk != []
  {
    if chunk[|chunk| - 1] == Newline then chunk[..|chunk| - 1] else chunk
  }

  /** A chunk with a '\n' at most at its end loses exactly its newlines when stripped. */
  lemma StrippedChunk(chunk: seq<Byte>)
    requires chunk != [] && Newline !in chunk[..|chunk| - 1]
    ensures Stripped(chunk) == RemoveNewlines(chunk)
  {
    var body := chunk[..|chunk| - 1];
    var last := chunk[|chunk| - 1];
    assert chunk == body + [last];
    KeepsOtherBytes(body);
    RemoveNewlinesAppend(body, [last]);
    assert RemoveNewlines([last]) == if last == Newline then [] else [last];
  }

  /** A chunk fgets reads has a '\n' at most at its end, so stripping it removes
      every '\n' in it; appended to the text so far, it extends the text read. */
  lemma NextChunk(content: seq<Byte>, pos: nat, e: nat)
    requires pos < e <= |content|
    requires forall k :: pos <= k < e - 1 ==> content[k] != Newline
    ensures RemoveNewlines(content[..pos]) + Stripped(content[pos .. e]) == RemoveNewlines(content[..e])
  {
    var chunk := content[pos .. e];
    var body := chunk[..|chunk| - 1];
    assert Newline !in body by {
      assert forall k :: 0 <= k < |body| ==> body[k] == content[pos + k];
    }
    StrippedChunk(chunk);
    assert content[..e] == content[..pos] + chunk;
    RemoveNewlinesAppend(content[..pos], chunk);
  }

  /** The size the token buffer has after the check at xsa.c:154: `realloc` to
      total_len + len + 1024 when the text would reach 4095 bytes. */
  function NewCapacity(capacity: nat, total: nat, len: nat): (c: nat)
    requires capacity >= BufferSize
    ensures c >= BufferSize && c >= total + len + 1
  {
    if total + len >= BufferSize - 1 then total + len + 1024 else capacity
  }

  /** `realloc(buffer, size)`: a new block holding the old bytes that fit in it. */
  method Realloc(buffer: array<Byte>, size: nat) returns (grown: array<Byte>)
    ensures fresh(grown) && grown.Length == size
    ensures size <= buffer.Length ==> grown[..] == buffer[..size]
    ensures buffer.Length <= size ==> grown[..buffer.Length] == buffer[..]
  {
    grown := new Byte[size];
    var keep := if size <= buffer.Length then size else buffer.Length;
    for k := 0 to keep
      invariant grown[..k] == buffer[..k]
    {
      grown[k] := buffer[k];
    }
  }

  /** `strcat(token, buffer)`: find the terminator of the text in token, as `strlen`
      does, and copy the chunk and a new terminator there. On a token whose text is
      the `total` bytes before its first NUL, that is at `total`. */
  method Append(token: array<Byte>, total: nat, chunk: seq<Byte>)
    requires total < token.Length && token[total] == Nul && Nul !in token[..total]
    requires Nul !in chunk && total + |chunk| + 1 <= token.Length
    modifies token
    ensures token[..total + |chunk| + 1] == old(token[..total]) + chunk + [Nul]
    ensures Nul !in token[..total + |chunk|]
  {
    var end := 0;
    while token[end] != Nul
      invariant end <= total && Nul !in token[..end]
      decreases total - end
    {
      assert token[..end + 1] == token[..end] + [token[end]];
      end := end + 1;
    }
    assert end == total;
    for k := 0 to |chunk|
      invariant token[..end + k] == old(token[..total]) + chunk[..k]
    {
      token[end + k] := chunk[k];
    }
    token[end + |chunk|] := Nul;
    assert token[..end + |chunk|] == old(token[..total]) + chunk;
  }

  /** One pass of the accumulation loop after the newline check: grow the buffer
      when the text would reach 4095 bytes, then `strcat` the chunk. The buffer has
      room for the text and its terminator before the copy, and after it the text is
      again the bytes before the first NUL. */
  method AppendChunk(buffer: array<Byte>, total: nat, chunk: seq<Byte>) returns (grown: array<Byte>, newTotal: nat)
    requires buffer.Length >= BufferSize && buffer.Length >= total + 1
    requires buffer[total] == Nul && Nul !in buffer[..total] && Nul !in chunk
    modifies buffer
    ensures grown == buffer || fresh(grown)
    ensures newTotal == total + |chunk|
    ensures grown.Length == NewCapacity(buffer.Length, total, |chunk|) && grown.Length >= newTotal + 1
    ensures grown[..newTotal] == old(buffer[..total]) + chunk
    ensures grown[newTotal] == Nul && Nul !in grown[..newTotal]
  {
    grown := buffer;
    if total + |chunk| >= BufferSize - 1 {
      grown := Realloc(buffer, total + |chunk| + 1024);
      assert grown[..total + 1] == buffer[..total + 1];
      assert grown[..total] == buffer[..total];
    }
    Append(grown, total, chunk);
    newTotal := total + |chunk|;
    assert grown[..newTotal + 1][newTotal] == Nul;
  }

  /** The accumulation loop: the token text is the file with every '\n' removed, and
      the buffer always has room for it and its terminator. */
  method ReadToken(content: seq<Byte>) returns (token: seq<Byte>)
    requires Nul !in content
    ensures token == RemoveNewlines(content)
  {
    var buffer := new Byte[BufferSize];
    buffer[0] := Nul;
    var total: nat := 0;
    var pos: nat := 0;
    assert content[..0] == [];
    while pos < |content|
      invariant pos <= |content| && fresh(buffer)
      invariant buffer.Length >= BufferSize && buffer.Length >= total + 1
      invariant buffer[..total] == RemoveNewlines(content[..pos])
      invariant buffer[total] == Nul && Nul !in buffer[..total]
      decreases |content| - pos
    {
      var e := ChunkEnd(content, pos, BufferSize - 1);
      var chunk := content[pos .. e];          // what fgets leaves in `buffer`
      assert Nul !in chunk;
      CStringOfNulFree(chunk);
      var len := |CString(chunk)|;            // strlen(buffer) >= 1
      if chunk[len - 1] == Newline {
        chunk := chunk[..len - 1];
      }
      NextChunk(content, pos, e);
      buffer, total := AppendChunk(buffer, total, chunk);
      pos := e;
    }
    assert content[..pos] == content;
    token := buffer[..total];
  }

  /** What read_and_process_token logs for a file at `path`. */
  function TokenEvents(file: File, path: Path): (r: seq<Event>)
    ensures |r| <= 1 && (!file.opens ==> r == [CannotOpenFile(path)])
    ensures (r != [] && r[0].Decoded?) <==>
              file.opens && exists k :: 0 <= k < |file.content| && file.content[k] != Newline
  {
    EmptyWhenOnlyNewlines(file.content);
    if !file.opens then [CannotOpenFile(path)]
    else
      var token := RemoveNewlines(file.content);
      if token == [] then [] else [Decoded(Jwt.DecodeOutcome(token))]
  }

  /** The whole call: open, read, and decode when the token text is not empty. */
  method ReadAndProcessToken(file: File, path: Path) returns (events: seq<Event>)
    requires Nul !in file.content
    ensures events == TokenEvents(file, path)
  {
    if !file.opens {
      return [CannotOpenFile(path)];
    }
    var token := ReadToken(file.content);
    NulFreeAfterRemoval(file.content);
    CStringOfNulFree(token);
    if |CString(token)| > 0 {
      var outcome := Jwt.DecodeJwtAndExtractName(token);
      events := [Decoded(outcome)];
    } else {
      events := [];
    }
  }

  /** Removing newlines adds no NUL. */
  lemma {:induction false} NulFreeAfterRemoval(s: seq<Byte>)
    requires Nul !in s
    ensures Nul !in RemoveNewlines(s)
  {
    if s != [] {
      assert Nul !in s[1..] by { assert forall k :: 0 <= k < |s| - 1 ==> s[1..][k] == s[k + 1]; }
      NulFreeAfterRemoval(s[1..]);
    }
  }
}
