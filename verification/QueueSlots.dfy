/** Addresses of pointer fields, shared by the queues that store them. */
module QueueSlots {
  /** The head's first field, or the next field of an entry. */
  datatype Slot<E> = HeadFirst | NextOf(entry: E)
}
