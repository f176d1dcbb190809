/** The sequential model of one key that the history checker runs, generic in
    the type of values. Versions are 64-bit and wrap. */
module KvModel {
  const VERSION_LIMIT := 0x1_0000_0000_0000_0000

  type Version = v: int | 0 <= v < VERSION_LIMIT

  datatype Err = OK | ErrVersion | ErrMaybe | ErrNoKey | ErrOther

  /** op: 0 is a get, 1 is a put, nothing else is valid. */
  datatype Input<V> = Input(op: nat, key: string, value: V, version: Version)

  datatype Output<V> = Output(value: V, version: Version, err: Err)

  datatype State<V> = State(value: V, version: Version) | Invalid

  function Next(v: Version): Version {
    (v + 1) % VERSION_LIMIT
  }

  /** Whether the model in state st explains an operation's output, and the
      state that follows. */
  function Step<V(==)>(st: State<V>, inp: Input<V>, out: Output<V>): (bool, State<V>) {
    if st.Invalid? then (false, Invalid)
    else if inp.op == 0 then (out.value == st.value, st)
    else if inp.op == 1 then
      if st.version == inp.version then
        (out.err == OK || out.err == ErrMaybe, State(inp.value, Next(st.version)))
      else
        (out.err == ErrVersion || out.err == ErrMaybe, st)
    else (false, Invalid)
  }

  /** A completed operation with the times of its call and its return. */
  datatype Operation<V> = Operation(input: Input<V>, output: Output<V>, call: int, ret: int, client: int)
}
