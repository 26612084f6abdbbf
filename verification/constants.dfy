/** Constants shared by the coordinator and the workers
    (`include/constant/constants.h`, `include/data/tag_data.h`), and the
    shape of a message handed to the transport. */
module Constants {
  import opened Bytes

  /** Bytes reserved for a chunk id inside a write fragment. */
  const ID_LEN: nat := 23
  /** Acknowledgement statuses. */
  const FAIL: byte := 0
  const SUCCESS: byte := 1

  /** `TAGS`: the kind of each message, in enumerator order. */
  datatype Tag = Allocation | Read | Write | Free | Map | Reduce | Quit

  /** The enumerator's value, the MPI tag a message carries. */
  function TagValue(t: Tag): (n: nat)
    ensures n < 7
  {
    match t
    case Allocation => 0
    case Read => 1
    case Write => 2
    case Free => 3
    case Map => 4
    case Reduce => 5
    case Quit => 6
  }

  /** Distinct kinds of message travel under distinct MPI tags. */
  lemma TagValueInjective(t: Tag, u: Tag)
    requires TagValue(t) == TagValue(u)
    ensures t == u
  {
  }

  /** A message handed to the transport: its destination rank, its tag and
      the bytes it carries. */
  datatype Send = Send(dest: nat, tag: Tag, payload: seq<byte>)
}
