/**
 * The render-data slice of the visualisation's store: the action creator `setRenderData`
 * and the reducer `renderData`. The render data itself is left abstract (`T`); `null` is
 * `None`. The deep copy the reducer makes of the payload is a copy of a value here.
 */
module RenderData {
  import opened Wrappers

  /** The action types of the slice; the reducer also receives actions of other slices. */
  datatype ActionType = SetRenderData | OtherAction(name: string)

  datatype Action<T> = Action(actionType: ActionType, payload: Option<T>)

  /** `defaultRenderData`: `null`. */
  function DefaultRenderData<T>(): (d: Option<T>)
    ensures d.None?
  {
    None
  }

  /**
   * `setRenderData(renderData = defaultRenderData)`: an argument that is not passed is
   * `None` here (the outer `Option`), and then the payload is the default.
   */
  function SetRenderDataAction<T>(renderData: Option<Option<T>>): (a: Action<T>)
    ensures a.actionType == SetRenderData
    ensures renderData.Some? ==> a.payload == renderData.value
    ensures renderData.None? ==> a.payload == DefaultRenderData()
  {
    Action(SetRenderData, renderData.GetOr(DefaultRenderData()))
  }

  /**
   * `renderData(state = setRenderData().payload, action)`: a state that is not passed
   * (`undefined`) is the default payload; `SET_RENDER_DATA` replaces the state by the
   * payload, any other action keeps it.
   */
  function Reduce<T>(state: Option<Option<T>>, action: Action<T>): (r: Option<T>)
    ensures action.actionType == SetRenderData ==> r == action.payload
    ensures action.actionType != SetRenderData ==> r == state.GetOr(SetRenderDataAction(None).payload)
  {
    var current := state.GetOr(SetRenderDataAction(None).payload);
    match action.actionType
    case SetRenderData => action.payload
    case OtherAction(_) => current
  }

  /** With no state yet and an unrelated action, the reducer yields `null`. */
  lemma InitialStateIsNull<T>(action: Action<T>)
    requires action.actionType != SetRenderData
    ensures Reduce(None, action) == None
  {
  }

  /** Dispatching `setRenderData()` without an argument resets any state to `null`. */
  lemma ResetToDefault<T>(state: Option<Option<T>>)
    ensures Reduce(state, SetRenderDataAction(None)) == None
  {
  }

  /** Setting render data and setting it again is the same as setting it once: the last payload wins. */
  lemma SetTwice<T>(state: Option<Option<T>>, first: Option<T>, second: Option<T>)
    ensures Reduce(Some(Reduce(state, SetRenderDataAction(Some(first)))), SetRenderDataAction(Some(second))) == second
  {
  }
}
