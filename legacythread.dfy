/**
 * The older main-thread end of a worker (`ParticleThread` in
 * `src/boilerplate/objects/ParticleThread.ts`). Its encoders are those of the current thread; what
 * differs is `handleMessage`, which dispatches on a `type` field of the reply object rather than
 * on the first entry of its buffer.
 */
module LegacyParticleThreads {
  import opened Wrappers
  import opened BoardCodec
  import opened LegacyParticleWorkers

  /** A reply object as the listener sees it: its `type` field, if set, and its `buff`. */
  datatype Reply = Reply(typeField: Option<real>, buff: seq<real>)

  /** The branch of the older `handleMessage` a reply takes; neither changes any state. */
  datatype Branch = InitDoneBranch | DefaultBranch

  /** The reply object the older worker posts for a buffer: `{ buff }`, with no `type` field. */
  function Posted(buff: seq<real>): Reply {
    Reply(None, buff)
  }

  /**
   * The older `handleMessage`: the `initDone` branch is taken exactly when the reply's `type`
   * field is the `initDone` tag, whatever its buffer holds.
   */
  function HandleMessage(data: Reply): (b: Branch)
    ensures b == InitDoneBranch <==> data.typeField == Some(TagCode(InitDone))
  {
    if data.typeField == Some(TagCode(InitDone)) then InitDoneBranch else DefaultBranch
  }

  /**
   * Every reply the older worker posts, for any message and any worker state, takes the default
   * branch, the `initDone` answer to `init` included.
   */
  lemma WorkerRepliesTakeDefault(tag: Option<MsgType>, hasBoard: bool)
    ensures var replies := LegacyReplies(tag, hasBoard);
      replies.Ok? ==> forall k :: 0 <= k < |replies.value| ==> HandleMessage(Posted(replies.value[k])) == DefaultBranch
  {
  }

  /** In particular the `initDone` answer, whose buffer carries the `initDone` tag, is not recognised. */
  lemma InitDoneNotRecognised()
    ensures LegacyReplies(Some(Init), false) == Ok([[TagCode(InitDone)]])
    ensures HandleMessage(Posted([TagCode(InitDone)])) == DefaultBranch
    ensures HandleMessage(Reply(Some(TagCode(InitDone)), [])) == InitDoneBranch
  {
  }
}
