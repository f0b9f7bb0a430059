/** The `config` reducer. The configuration is an object whose fields are a
    map from field name to value. Three action types first assign one field
    of the current object in place and then return a shallow copy of it;
    `SET_CONFIG` returns a fresh merge and leaves the current object alone.
    The first state is supplied by the caller (the persisted configuration). */
module ConfigReducer {
  import opened Actions

  const IsSideNavFoldedField := "isSideNavFolded"
  const ZoomField := "zoom"
  const ListWidthField := "listWidth"

  /** One field overwritten: `name` now holds `v`, every other field is as
      it was, and no field appears or disappears except `name`. */
  function Assign(fields: map<string, ConfigValue>, name: string, v: ConfigValue): (r: map<string, ConfigValue>)
    ensures name in r && r[name] == v
    ensures forall f :: f != name ==> (f in r <==> f in fields)
    ensures forall f :: f != name && f in r ==> r[f] == fields[f]
  {
    fields[name := v]
  }

  /** `Object.assign({}, base, patch)`: the fields of both, with the value
      from `patch` wherever both have the field. */
  function Overlay(base: map<string, ConfigValue>, patch: map<string, ConfigValue>): (r: map<string, ConfigValue>)
    ensures forall f :: f in r <==> f in base || f in patch
    ensures forall f :: f in patch ==> r[f] == patch[f]
    ensures forall f :: f in base && f !in patch ==> r[f] == base[f]
  {
    base + patch
  }

  /** Setting one field is merging a one-field patch; the two differ only in
      that the setters also write the old object. */
  lemma OverlayOneField(base: map<string, ConfigValue>, name: string, v: ConfigValue)
    ensures Overlay(base, map[name := v]) == Assign(base, name, v)
  {
  }

  class Config {
    var fields: map<string, ConfigValue>

    constructor (fields: map<string, ConfigValue>)
      ensures this.fields == fields
    {
      this.fields := fields;
    }
  }

  method Reduce(state: Config, action: Action) returns (next: Config)
    modifies state
    ensures action.SetIsSideNavFolded? ==>
      fresh(next) && state.fields == Assign(old(state.fields), IsSideNavFoldedField, BoolValue(action.isFolded)) &&
      next.fields == state.fields
    ensures action.SetZoom? ==>
      fresh(next) && state.fields == Assign(old(state.fields), ZoomField, NumberValue(action.zoom)) &&
      next.fields == state.fields
    ensures action.SetListWidth? ==>
      fresh(next) && state.fields == Assign(old(state.fields), ListWidthField, NumberValue(action.listWidth)) &&
      next.fields == state.fields
    ensures action.SetConfig? ==>
      fresh(next) && unchanged(state) && next.fields == Overlay(old(state.fields), action.config)
    ensures !action.ForConfig() ==> next == state && unchanged(state)
  {
    match action
    case SetIsSideNavFolded(isFolded) =>
      state.fields := state.fields[IsSideNavFoldedField := BoolValue(isFolded)];
      next := new Config(state.fields);
    case SetZoom(zoom) =>
      state.fields := state.fields[ZoomField := NumberValue(zoom)];
      next := new Config(state.fields);
    case SetListWidth(listWidth) =>
      state.fields := state.fields[ListWidthField := NumberValue(listWidth)];
      next := new Config(state.fields);
    case SetConfig(patch) =>
      next := new Config(state.fields + patch);
    case _ =>
      next := state;
  }
}
