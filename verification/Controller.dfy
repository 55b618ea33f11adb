/** What the reconcilers hand back to controller-runtime. */
module Controller {
  import opened GoTime

  datatype Requeue = NoRequeue | Immediately | After(delay: Duration)

  /** ctrl.Result and the error. */
  datatype PassResult = PassResult(requeue: Requeue, failed: bool)
}
