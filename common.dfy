/** Types shared by the three codecs: bytes, bits, edge-list rows, the
    read-only graph capability, the exceptions the codecs raise, and the
    password-to-seed rule. */
module Common {

  type byte = x: int | 0 <= x < 256
  type bit = x: int | 0 <= x < 2

  /** A node identifier and one row (endpoint_a, endpoint_b) of an edge list. */
  type Node = int
  type Row = (Node, Node)

  /** The part of a graph backend that BIND and BYMOND consult: the degree of a
      node and the number of edges. */
  datatype Graph = Graph(degree: Node -> nat, numEdges: nat)

  datatype Option<T> = None | Some(value: T)

  /** The Python exceptions the codecs let escape. */
  datatype Error =
    | ValueError
    | KeyError
    | IndexError
    | TypeError
    | NameError
    | StructError
    | RuntimeError(what: string)

  datatype Result<T> = Ok(value: T) | Err(error: Error)

  function Min(a: int, b: int): int {
    if a <= b then a else b
  }

  /** Python truthiness of an optional integer password. */
  predicate Truthy(pw: Option<int>) {
    pw.Some? && pw.value != 0
  }

  /** The seed used by `if not pw: pw = 1` followed by seeding with pw. */
  function SeedOf(pw: Option<int>): int {
    if Truthy(pw) then pw.value else 1
  }

  /** `np.random.seed` accepts 0 <= seed < 2^32 and raises ValueError
      otherwise. */
  predicate SeedInRange(seed: int) {
    0 <= seed < 0x1_0000_0000
  }
}
