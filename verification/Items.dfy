/** Block items as values: what a state table asks for, what is cached for it, and who owns it. */
module Items {
  import opened Bytes

  // Items of one frame, and the capacity of every id index.
  const MAX_FRAME_ITEMS := 256

  datatype Option<+T> = None | Some(value: T)

  datatype Width = NoWidth | Pixels(width: int) | Sample(text: Bytes)

  /** The fields of one rendered state; the first text is full_text. */
  datatype State = State(text: seq<Option<Bytes>>, border: seq<int>, minWidth: Width, urgent: bool) {
    predicate Visible() {
      |text| > 0 && text[0].Some? && text[0].value != []
    }
  }

  /** One parsed state table: an id, if the form allows one, and the fields of a state. */
  datatype View = View(id: Option<Bytes>, text: seq<Option<Bytes>>, border: seq<int>, minWidth: Width, urgent: bool)

  function Stored(view: View): State {
    State(view.text, view.border, view.minWidth, view.urgent)
  }

  /** Field by field comparison of a cached state with a requested one. */
  predicate StateMatchesView(state: State, view: View) {
    && |state.text| == |view.text| && (forall i | 0 <= i < |state.text| :: state.text[i] == view.text[i])
    && |state.border| == |view.border| && (forall i | 0 <= i < |state.border| :: state.border[i] == view.border[i])
    && state.minWidth == view.minWidth && state.urgent == view.urgent
  }

  lemma {:induction false} MatchIsEquality(state: State, view: View)
    ensures StateMatchesView(state, view) <==> state == Stored(view)
  {
    if StateMatchesView(state, view) {
      assert state.text == view.text && state.border == view.border;
    }
  }

  /** The wire instance that routes clicks back: block token alone, with an id, or with a position. */
  datatype Instance = Whole | Named(id: Bytes) | Numbered(position: nat)

  function FormatInstance(listMode: bool, id: Option<Bytes>, position: nat): Instance {
    if !listMode then Whole else if id.Some? then Named(id.value) else Numbered(position + 1)
  }

  /** Validation and serialization, as parameters; serialization fails above 7168 bytes. */
  datatype Rules = Rules(validId: Bytes -> bool, validState: State -> bool,
                         serialize: (Instance, State) -> Option<Bytes>)

  /** What the bar shows of an item. */
  datatype Face = Face(id: Option<Bytes>, state: State, fragment: Bytes)

  /** A slot of the item arrays: zeroed, or an item that owns one allocation. */
  datatype Item = Empty | Item(face: Face, cell: nat)

  datatype Reason = Malformed | DuplicateId | BadId | BadState | TooLarge

  /** Serializing a state from scratch for its position and form. */
  function Build(rules: Rules, listMode: bool, position: nat, id: Option<Bytes>, state: State): (face: Option<Face>)
    ensures face.Some? ==> face.value.id == id && face.value.state == state
  {
    if !state.Visible() then Some(Face(id, state, []))
    else match rules.serialize(FormatInstance(listMode, id, position), state)
      case Some(json) => Some(Face(id, state, json))
      case None => None
  }

  /** Why a view cannot be materialized, in the order of the checks. */
  function Obstacle(rules: Rules, listMode: bool, position: nat, view: View): Option<Reason> {
    if view.id.Some? && !rules.validId(view.id.value) then Some(BadId)
    else if !rules.validState(Stored(view)) then Some(BadState)
    else if Build(rules, listMode, position, view.id, Stored(view)).None? then Some(TooLarge)
    else None
  }

  /** A cached item is exactly what rebuilding it at its present position would give. */
  ghost predicate Fresh(rules: Rules, listMode: bool, position: nat, face: Face) {
    && (face.id.Some? ==> rules.validId(face.id.value)) && rules.validState(face.state)
    && Build(rules, listMode, position, face.id, face.state) == Some(face)
  }

  ghost predicate AllEmpty(slots: seq<Item>) {
    forall i | 0 <= i < |slots| :: slots[i] == Empty
  }

  ghost predicate AllItems(slots: seq<Item>) {
    forall i | 0 <= i < |slots| :: slots[i].Item?
  }

  ghost function SlotFaces(slots: seq<Item>): (faces: seq<Face>)
    requires AllItems(slots)
    ensures |faces| == |slots|
    ensures forall i | 0 <= i < |slots| :: faces[i] == slots[i].face
  {
    seq(|slots|, i requires 0 <= i < |slots| => slots[i].face)
  }

  ghost predicate AllFresh(rules: Rules, listMode: bool, faces: seq<Face>) {
    forall i | 0 <= i < |faces| :: Fresh(rules, listMode, i, faces[i])
  }
}
