/** Option and Result types used throughout the model. The values of Error are
    the exceptions generateqos.py raises on purpose, and the missing-key failure
    of get_mark's table lookup. */
module Results {

  datatype Option<T> = None | Some(value: T)

  datatype Error =
    /** A group declares other than exactly one entry under `hosts`. */
    | HostCount(group: string, hosts: seq<string>)
    /** Several host groups claim the same IP address. */
    | SharedIp(ip: string, owners: seq<string>)
    /** A host is a child of several roles. */
    | SeveralRoles(host: Option<string>, roles: seq<string>)
    /** An inter-role latency is declared under both orderings of its key. */
    | BothOrders(latencies: seq<string>)
    /** A mark is asked for a latency value that the mark table does not hold:
        the KeyError of get_mark's lookup. */
    | UnknownLatency(latency: string)

  datatype Result<T> = Ok(value: T) | Err(error: Error) {
    predicate IsFailure() { Err? }

    function PropagateFailure<U>(): Result<U>
      requires Err?
    {
      Err(error)
    }

    function Extract(): T
      requires Ok?
    {
      value
    }
  }
}
