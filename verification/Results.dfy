/** Results of the operations, with the errors that decide control flow. */
module Results {

  datatype Option<+T> = None | Some(value: T)

  datatype Error =
    | TableFull(current: nat, capacity: nat)
    | RecordSizeTooBig(current: nat, max: nat)
    | RecordDuplicated
    | InvalidIndex(index: nat, max: nat)
    | SerializationError
    | DeserializationError
    | SemaphoreInvalidIndex(semNum: nat, max: nat)

  datatype Result<+T> = Ok(value: T) | Err(error: Error) {
    predicate IsFailure() {
      Err?
    }

    function PropagateFailure<U>(): Result<U>
      requires Err?
    {
      Err(error)
    }

    function Extract(): T
      requires Ok?
    {
      value
    }
  }
}
