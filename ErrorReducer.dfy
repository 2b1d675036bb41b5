/** `errorReducer` (src/utils/reducers/errorReducer.ts): errors keyed by the place they belong to. */
module ErrorReducer {
  import opened Wrappers

  datatype ErrorType = ErrorType(message: string, code: Option<string>)

  datatype ErrorState = ErrorState(errors: map<string, ErrorType>)

  /** The actions of the reducer's union type; `Unrecognised` is any other action type. */
  datatype ErrorAction =
    | SetError(key: string, error: ErrorType)
    | RemoveError(key: string)
    | ClearAllErrors
    | Unrecognised(tag: string)

  const InitialErrorState: ErrorState := ErrorState(map[])

  function Reduce(state: ErrorState, action: ErrorAction): ErrorState {
    match action
    case SetError(key, error) => state.(errors := state.errors[key := error])
    case RemoveError(key) => state.(errors := state.errors - {key})
    case ClearAllErrors => state.(errors := map[])
    case Unrecognised(_) => state
  }

  /** Folds a sequence of actions over a state, as React's `useReducer` does. */
  function ReduceAll(state: ErrorState, actions: seq<ErrorAction>): ErrorState
    decreases |actions|
  {
    if actions == [] then state else ReduceAll(Reduce(state, actions[0]), actions[1..])
  }

  /** SET_ERROR binds the key to the error and leaves every other key as it was. */
  lemma SetErrorBindsKey(state: ErrorState, key: string, error: ErrorType)
    ensures var r := Reduce(state, SetError(key, error));
      && key in r.errors && r.errors[key] == error
      && (forall k :: k != key ==> (k in r.errors <==> k in state.errors))
      && (forall k :: k != key && k in state.errors ==> r.errors[k] == state.errors[k])
  {
  }

  /** REMOVE_ERROR makes the key absent and leaves every other key; on an absent key it changes nothing. */
  lemma RemoveErrorDropsKey(state: ErrorState, key: string)
    ensures var r := Reduce(state, RemoveError(key));
      && key !in r.errors
      && (forall k :: k != key ==> (k in r.errors <==> k in state.errors))
      && (forall k :: k in r.errors ==> r.errors[k] == state.errors[k])
      && (key !in state.errors ==> r == state)
  {
  }

  /** Setting an error and then removing it is the same as removing it. */
  lemma SetThenRemove(state: ErrorState, key: string, error: ErrorType)
    ensures Reduce(Reduce(state, SetError(key, error)), RemoveError(key)) == Reduce(state, RemoveError(key))
  {
    assert state.errors[key := error] - {key} == state.errors - {key};
  }

  /** The initial state has no errors; CLEAR_ALL_ERRORS returns to it; other action types change nothing. */
  lemma ClearingAndUnknownActions(state: ErrorState, tag: string)
    ensures InitialErrorState.errors == map[]
    ensures Reduce(state, ClearAllErrors) == InitialErrorState
    ensures Reduce(state, Unrecognised(tag)) == state
  {
  }

  /** Every key present after a run of actions was set by one of them or was present before. */
  lemma {:induction false} ErrorsComeFromSetError(state: ErrorState, actions: seq<ErrorAction>, key: string)
    requires key in ReduceAll(state, actions).errors
    ensures key in state.errors || exists i :: 0 <= i < |actions| && actions[i].SetError? && actions[i].key == key
    decreases |actions|
  {
    if actions != [] {
      var next := Reduce(state, actions[0]);
      ErrorsComeFromSetError(next, actions[1..], key);
      if key in next.errors && key !in state.errors {
        assert actions[0].SetError? && actions[0].key == key;
      } else if key !in next.errors {
        var i :| 0 <= i < |actions[1..]| && actions[1..][i].SetError? && actions[1..][i].key == key;
        assert actions[i + 1] == actions[1..][i];
      }
    }
  }
}
