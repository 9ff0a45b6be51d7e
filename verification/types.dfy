/** Value types shared by the scheduler model. */
module Types {

  /** Lifecycle states of a work item (QueueItemState). */
  datatype ItemState = Pending | Waiting | Blocked | Running | Finished | Errored

  /**
   * A lane descriptor (QueueItemType): a label and a concurrency cap.
   * The constructor in the source accepts any cap, so no bound is imposed here.
   */
  datatype ItemType = ItemType(laneLabel: string, maxConcurrentItems: int)

  /**
   * What the user action does when awaited: it either completes, or throws an
   * exception carrying a message.
   */
  datatype Outcome = Completes | Throws(message: string)

  datatype Option<T> = None | Some(value: T)
}
