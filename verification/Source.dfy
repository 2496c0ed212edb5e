/** Input that arrives in arbitrary chunks (`xread` in src/utils.c). */
module Sources {
  import opened Text

  function Joined(chunks: seq<string>): string {
    if chunks == [] then "" else chunks[0] + Joined(chunks[1..])
  }

  /** A file descriptor: the chunks that the coming reads return, all non-empty; then end of file. */
  class Source {
    var chunks: seq<string>

    ghost predicate Valid()
      reads this
    {
      CString(Rest()) && forall i | 0 <= i < |chunks| :: chunks[i] != ""
    }

    /** All bytes that are still to come. */
    ghost function Rest(): string
      reads this
    {
      Joined(chunks)
    }

    constructor (chunks: seq<string>)
      requires CString(Joined(chunks)) && forall i | 0 <= i < |chunks| :: chunks[i] != ""
      ensures Valid() && Rest() == Joined(chunks)
    {
      this.chunks := chunks;
    }

    /** `xread`: the next chunk, or nothing at the end of the file. */
    method Read() returns (bytes: string)
      requires Valid()
      modifies this
      ensures Valid() && CString(bytes)
      ensures old(Rest()) == bytes + Rest() && (bytes == "" <==> old(chunks) == [])
      ensures bytes != "" ==> bytes == old(chunks)[0] && chunks == old(chunks)[1..]
      ensures |chunks| == if old(chunks) == [] then 0 else |old(chunks)| - 1
    {
      if chunks == [] {
        return "";
      }
      bytes := chunks[0];
      chunks := chunks[1..];
      assert old(Rest()) == bytes + Rest();
      assert CString(bytes) && CString(Rest()) by {
        assert forall c | c in bytes :: c in old(Rest());
        assert forall c | c in Rest() :: c in old(Rest());
      }
    }
  }

  /** A feed found in the part read so far is the first feed of the whole input. */
  lemma FirstFeed(a: string, b: string)
    requires IndexOf(a, '\n') >= 0
    ensures IndexOf(a + b, '\n') == IndexOf(a, '\n')
  {
    var n := IndexOf(a, '\n');
    var rest := a[n + 1..] + b;
    assert a + b == a[..n] + ['\n'] + rest;
    IndexOfPrefix(a[..n], '\n', rest);
  }
}
