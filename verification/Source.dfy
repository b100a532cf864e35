/** The value of a BufferedReader: bytes already buffered, and what its transport will still return. */
module Sources {
  import opened Basics

  /** `rest` holds the bytes of each later transport read; when it is empty the transport reports EOF. */
  datatype Source = Source(buffered: Bytes, rest: seq<Bytes>)

  function All(s: Source): Bytes {
    s.buffered + Flat(s.rest)
  }

  /** What io.ReadFull returns: all the bytes, io.EOF when there was none at all, or io.ErrUnexpectedEOF. */
  datatype Full = Whole(value: Bytes) | NoBytes | Short

  /** io.ReadFull over BufferedReader.Read. */
  function ReadFull(s: Source, n: nat): (Full, Source)
    decreases |s.rest|
  {
    if n <= |s.buffered| then (Whole(s.buffered[..n]), s.(buffered := s.buffered[n..]))
    else if s.rest == [] then (if s.buffered == [] then NoBytes else Short, Source([], []))
    else ReadFull(Source(s.buffered + s.rest[0], s.rest[1..]), n)
  }

  /** How the transport cut the stream does not matter: ReadFull takes the next n bytes of it. */
  lemma {:induction false} ReadFullTakesPrefix(s: Source, n: nat)
    ensures ReadFull(s, n).0 == if n <= |All(s)| then Whole(All(s)[..n]) else if All(s) == [] then NoBytes else Short
    ensures All(ReadFull(s, n).1) == if n <= |All(s)| then All(s)[n..] else []
    decreases |s.rest|
  {
    if n <= |s.buffered| {
      assert All(s)[..n] == s.buffered[..n];
      assert All(s)[n..] == s.buffered[n..] + Flat(s.rest);
    } else if s.rest != [] {
      var s' := Source(s.buffered + s.rest[0], s.rest[1..]);
      ReadFullTakesPrefix(s', n);
      assert All(s') == All(s);
    }
  }

  /** The same reader when its transport has more to come in the end. */
  function Extended(s: Source, more: Bytes): Source {
    s.(rest := s.rest + [more])
  }

  lemma ExtendedAll(s: Source, more: Bytes)
    ensures All(Extended(s, more)) == All(s) + more
  {
    FlatAppend(s.rest, [more]);
    FlatOne(more);
  }

  /** A full read that what is there suffices for does not notice what is to come. */
  lemma {:induction false} ReadFullExtended(s: Source, more: Bytes, n: nat)
    requires n <= |All(s)|
    ensures ReadFull(Extended(s, more), n) == (ReadFull(s, n).0, Extended(ReadFull(s, n).1, more))
    decreases |s.rest|
  {
    if n > |s.buffered| {
      var s' := Source(s.buffered + s.rest[0], s.rest[1..]);
      assert All(s') == All(s);
      assert Extended(s, more).rest[1..] == s.rest[1..] + [more];
      ReadFullExtended(s', more, n);
    }
  }
}
