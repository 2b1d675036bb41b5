/** `loadingReducer` (src/utils/reducers/loadingReducer.ts): the busy flag. */
module LoadingReducer {

  datatype LoadingState = LoadingState(isLoading: bool)

  /** SET_LOADING with its flag; `Unrecognised` is any other action type. */
  datatype LoadingAction = SetLoading(isLoading: bool) | Unrecognised(tag: string)

  const InitialLoadingState: LoadingState := LoadingState(false)

  function Reduce(state: LoadingState, action: LoadingAction): LoadingState {
    match action
    case SetLoading(isLoading) => state.(isLoading := isLoading)
    case Unrecognised(_) => state
  }

  /** Folds a sequence of actions over a state, as React's `useReducer` does. */
  function ReduceAll(state: LoadingState, actions: seq<LoadingAction>): LoadingState
    decreases |actions|
  {
    if actions == [] then state else ReduceAll(Reduce(state, actions[0]), actions[1..])
  }

  /** Nothing is loading at first; SET_LOADING sets the flag, twice the same as once; other actions change nothing. */
  lemma SetLoadingSetsFlag(state: LoadingState, isLoading: bool, tag: string)
    ensures !InitialLoadingState.isLoading
    ensures Reduce(state, SetLoading(isLoading)).isLoading == isLoading
    ensures Reduce(Reduce(state, SetLoading(isLoading)), SetLoading(isLoading)) == Reduce(state, SetLoading(isLoading))
    ensures Reduce(state, Unrecognised(tag)) == state
  {
  }

  /** After a run of actions the flag is the one the last SET_LOADING set, or the old one if there was none. */
  lemma {:induction false} LastSetLoadingWins(state: LoadingState, actions: seq<LoadingAction>)
    ensures (forall i :: 0 <= i < |actions| ==> actions[i].Unrecognised?) ==> ReduceAll(state, actions) == state
    ensures forall i :: 0 <= i < |actions| && actions[i].SetLoading? &&
                        (forall j :: i < j < |actions| ==> actions[j].Unrecognised?) ==>
                        ReduceAll(state, actions).isLoading == actions[i].isLoading
    decreases |actions|
  {
    if actions != [] {
      var next := Reduce(state, actions[0]);
      LastSetLoadingWins(next, actions[1..]);
      forall i | 0 <= i < |actions| && actions[i].SetLoading? &&
                 (forall j :: i < j < |actions| ==> actions[j].Unrecognised?)
        ensures ReduceAll(state, actions).isLoading == actions[i].isLoading
      {
        if i > 0 {
          assert actions[1..][i - 1] == actions[i];
          assert forall j :: i - 1 < j < |actions[1..]| ==> actions[1..][j] == actions[j + 1];
        } else {
          assert forall j :: 0 <= j < |actions[1..]| ==> actions[1..][j].Unrecognised? by {
            forall j | 0 <= j < |actions[1..]| ensures actions[1..][j].Unrecognised? {
              assert actions[1..][j] == actions[j + 1];
            }
          }
        }
      }
      if forall i :: 0 <= i < |actions| ==> actions[i].Unrecognised? {
        assert forall j :: 0 <= j < |actions[1..]| ==> actions[1..][j] == actions[j + 1];
      }
    }
  }
}
