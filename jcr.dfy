/**
 * A model of the repository-managed binary value (`javax.jcr.Binary`): fixed
 * content that can be opened again and again. Both queries go to the
 * repository and may fail with a RepositoryException at any call, which the
 * model leaves as a nondeterministic outcome.
 */
module Jcr {
  import opened JavaIo

  class Binary {
    const content: seq<Byte>

    constructor (content: seq<Byte>)
      ensures this.content == content
    {
      this.content := content;
    }

    /** `getSize()`: the content length, or None when the repository fails. */
    method GetSize() returns (r: Option<nat>)
      ensures r == None || r == Some(|content|)
    {
      var ok: bool :| true;
      r := if ok then Some(|content|) else None;
    }

    /** `getStream()`: a new stream positioned at the start of the content, or None on failure. */
    method GetStream() returns (r: Option<InputStream>)
      ensures r.Some? ==> fresh(r.value) && r.value.remaining == content && !r.value.closed
    {
      var ok: bool :| true;
      if ok {
        var s := new InputStream(content);
        r := Some(s);
      } else {
        r := None;
      }
    }
  }
}
