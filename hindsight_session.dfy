/** The hindsight rollback session (rust_games/hindsight/src/hindsight/session.rs):
    player registration, the frame counter and its rollback, and gathering
    every player's input for the current frame. */
module HindsightSession {
  import opened Common
  import opened HindsightRingBuffer

  datatype PlayerCount = One | Two
  {
    function Count(): (n: nat)
      ensures 1 <= n <= 2
    {
      match this
      case One => 1
      case Two => 2
    }
  }

  datatype PlayerId = First | Second
  {
    /** The `u8` discriminant, used as an index. */
    function Index(): (i: nat)
      ensures i < 2
    {
      match this
      case First => 0
      case Second => 1
    }
  }

  /** `PlayerId::from`, restricted to the two values it accepts. */
  function PlayerIdFrom(i: nat): (p: PlayerId)
    requires i < 2
    ensures p.Index() == i
  {
    if i == 0 then First else Second
  }

  datatype PlayerInfo = Local

  datatype SessionState =
    | Initializing(players: seq<Option<PlayerInfo>>)
    | Running

  datatype Error =
    | InvalidOperation
    | PlayerAlreadyRegistered(player: PlayerId)

  datatype SyncInputError = LocalInputMissing(player: PlayerId)

  datatype Rollback = Rollback(targetFrame: nat, simFrames: byte)

  /** One slot of a player's input buffer (input_buffer.rs); only `real`
      is read by the session. */
  datatype FrameInput<I> = FrameInput(frame: nat, realInput: Option<I>, predicted: Option<I>, confirmed: bool)

  class Session<I> {
    var currentFrame: nat
    var state: SessionState
    var inputBuffers: seq<FrameCache<FrameInput<I>>>
    var playerCount: PlayerCount
    var maxRollback: nat

    /** One input buffer of `maxRollback` slots per player, two registration
        slots while initializing, and a frame number that fits in a `u32`. */
    ghost predicate Valid()
      reads this, inputBuffers
    {
      && |inputBuffers| == playerCount.Count()
      && (state.Initializing? ==> |state.players| == 2)
      && currentFrame <= U32_MAX
      && forall i :: 0 <= i < |inputBuffers| ==>
           inputBuffers[i].Valid() && inputBuffers[i].capacity == maxRollback
    }

    /** Every player's buffer still keeps the current frame (`get_mut`
        asserts this), and the end of its window fits in a `u32`. */
    ghost predicate CurrentFrameKept()
      reads this, inputBuffers
      requires Valid()
    {
      forall i :: 0 <= i < |inputBuffers| ==>
        && inputBuffers[i].oldestFrame <= currentFrame < inputBuffers[i].oldestFrame + maxRollback
        && inputBuffers[i].oldestFrame + maxRollback <= U32_MAX
    }

    /** Player `i`'s real input for the current frame, if it has one. */
    ghost function InputAt(i: nat): Option<I>
      reads this, inputBuffers, inputBuffers[i]
      requires Valid() && CurrentFrameKept() && i < |inputBuffers|
    {
      inputBuffers[i].Get(currentFrame).realInput
    }

    /** `Session::new`: frame 0, initializing with both slots free, one
        fresh buffer per player. `default` stands for `PlayerInput::default()`. */
    constructor (playerCount: PlayerCount, maxRollback: nat, default: I)
      ensures Valid()
      ensures currentFrame == 0 && state == Initializing([None, None])
      ensures this.playerCount == playerCount && this.maxRollback == maxRollback
      ensures forall i :: 0 <= i < |inputBuffers| ==>
        && fresh(inputBuffers[i]) && inputBuffers[i].oldestFrame == 0
        && inputBuffers[i].buffer == seq(maxRollback, _ => FrameInput(0, None, None, false))
      ensures 0 < maxRollback <= U32_MAX ==>
        CurrentFrameKept() && forall i :: 0 <= i < |inputBuffers| ==> InputAt(i).None?
    {
      var buffers: seq<FrameCache<FrameInput<I>>> := [];
      var i := 0;
      while i < playerCount.Count()
        invariant i <= playerCount.Count() && |buffers| == i
        invariant forall k :: 0 <= k < i ==>
          fresh(buffers[k]) && buffers[k].Valid() && buffers[k].capacity == maxRollback
          && buffers[k].oldestFrame == 0
          && buffers[k].buffer == seq(maxRollback, _ => FrameInput(0, None, None, false))
      {
        var b := new FrameCache(maxRollback, FrameInput(0, None, None, false));
        buffers := buffers + [b];
        i := i + 1;
      }
      currentFrame := 0;
      state := Initializing([None, None]);
      inputBuffers := buffers;
      this.playerCount := playerCount;
      this.maxRollback := maxRollback;
    }

    /** `register_player`: refused while running, or when the slot is
        taken; otherwise the info is stored in the player's slot. */
    method RegisterPlayer(id: PlayerId, info: PlayerInfo) returns (r: Result<(), Error>)
      requires Valid()
      modifies this`state
      ensures Valid()
      ensures old(state).Running? ==> r == Err(InvalidOperation) && state == old(state)
      ensures old(state).Initializing? && old(state).players[id.Index()].Some? ==>
        r == Err(PlayerAlreadyRegistered(id)) && state == old(state)
      ensures old(state).Initializing? && old(state).players[id.Index()].None? ==>
        r == Ok(()) && state == Initializing(old(state).players[id.Index() := Some(info)])
    {
      match state {
        case Running =>
          return Err(InvalidOperation);
        case Initializing(players) =>
          if players[id.Index()].Some? {
            return Err(PlayerAlreadyRegistered(id));
          }
          state := Initializing(players[id.Index() := Some(info)]);
          return Ok(());
      }
    }

    /** `synchronize_input`: copies each player's input for the current
        frame into `outInputs`, in player order, and stops with an error at
        the first player that has none; the inputs before it are already
        copied. */
    method SynchronizeInput(outInputs: array<I>) returns (r: Result<(), SyncInputError>)
      requires Valid() && CurrentFrameKept()
      requires outInputs.Length >= playerCount.Count()
      modifies outInputs
      ensures r.Ok? <==> forall i :: 0 <= i < |inputBuffers| ==> InputAt(i).Some?
      ensures r.Err? ==>
        && r.error.player.Index() < |inputBuffers|
        && InputAt(r.error.player.Index()).None?
        && forall i :: 0 <= i < r.error.player.Index() ==> InputAt(i).Some?
      ensures var done := if r.Ok? then |inputBuffers| else r.error.player.Index();
        && (forall i :: 0 <= i < done ==> InputAt(i).Some? && outInputs[i] == InputAt(i).value)
        && (forall i :: done <= i < outInputs.Length ==> outInputs[i] == old(outInputs[i]))
    {
      var i := 0;
      while i < playerCount.Count()
        invariant i <= |inputBuffers|
        invariant forall k :: 0 <= k < i ==> InputAt(k).Some? && outInputs[k] == InputAt(k).value
        invariant forall k :: i <= k < outInputs.Length ==> outInputs[k] == old(outInputs[k])
      {
        var input := inputBuffers[i].Get(currentFrame).realInput;
        match input {
          case None =>
            assert InputAt(i).None?;
            return Err(LocalInputMissing(PlayerIdFrom(i)));
          case Some(v) =>
            outInputs[i] := v;
        }
        i := i + 1;
      }
      return Ok(());
    }

    /** `synchronize`: rolls the frame counter back by `maxRollback` frames
        (taken as a `u32`) when it is at least that far along; the rollback
        reports the new frame and, as a `u8`, the number of frames to
        re-simulate. */
    method Synchronize() returns (r: Option<Rollback>)
      requires Valid()
      modifies this`currentFrame
      ensures Valid()
      ensures var frames := maxRollback % 0x1_0000_0000;
        if old(currentFrame) < frames then r.None? && currentFrame == old(currentFrame)
        else (currentFrame == old(currentFrame) - frames
              && r == Some(Rollback(currentFrame, frames % 0x100)))
    {
      var frames := maxRollback % 0x1_0000_0000;
      if currentFrame < frames {
        return None;
      }
      currentFrame := currentFrame - frames;
      return Some(Rollback(currentFrame, frames % 0x100));
    }

    /** `frame_finished`: the next frame; the `u32` increment panics on
        overflow in a debug build. */
    method FrameFinished()
      requires Valid() && currentFrame < U32_MAX
      modifies this`currentFrame
      ensures Valid() && currentFrame == old(currentFrame) + 1
    {
      currentFrame := currentFrame + 1;
    }
  }
}
