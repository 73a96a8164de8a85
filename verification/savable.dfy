/** A savable component: its "is new" test, the settings it derives from its
    own declared properties, and the before/after hooks around saving and
    deleting it. */
module Savable {
  import opened Wrappers
  import opened Php
  import opened Events

  const EventBeforeSave := "beforeSave"
  const EventAfterSave := "afterSave"
  const EventBeforeDelete := "beforeDelete"
  const EventAfterDelete := "afterDelete"

  /** The component id as PHP can hold it: unset (null), a boolean, an
      integer or a string (a placeholder such as "new3" before the first
      save). */
  datatype Id = NoId | BoolId(b: bool) | IntId(n: int) | StrId(s: string)

  /** A public or non-public property as reflection reports it. */
  datatype Property = Property(name: string, isPublic: bool, isStatic: bool, declaringClass: string)

  /** A component object: its concrete class, its id, the properties its
      class exposes (in reflection order), the current value of each
      non-static property, and its event handlers and trigger log. The id
      is the `id` property; when reflection lists it, `values["id"]` holds
      the same value (see `Valid`). */
  datatype Component = Component(
    className: string,
    id: Id,
    properties: seq<Property>,
    values: map<string, Value>,
    bus: Bus)

  /** Everything about a component except its event log is the same. */
  ghost predicate SameState(a: Component, b: Component) {
    && a.className == b.className
    && a.id == b.id
    && a.properties == b.properties
    && a.values == b.values
    && a.bus.handlers == b.bus.handlers
  }

  // ---------------------------------------------------------------------------
  // isSelectable, getSettingsHtml
  // ---------------------------------------------------------------------------

  /** Component types are selectable unless they say otherwise. */
  function IsSelectable(): (r: bool)
    ensures r
  {
    true
  }

  /** By default a component has no settings form (`null`). */
  function GetSettingsHtml(c: Component): (r: Option<string>)
    ensures r.None?
  {
    None
  }

  // ---------------------------------------------------------------------------
  // getIsNew
  // ---------------------------------------------------------------------------

  /** The PHP value an id is. */
  function IdValue(id: Id): Value {
    match id
    case NoId => Null
    case BoolId(b) => Bool(b)
    case IntId(n) => Int(n)
    case StrId(s) => Str(s)
  }

  /** The id a value becomes when it is assigned to the `id` property. */
  function IdOf(v: Value): (id: Id)
    ensures IdValue(id) == v
  {
    match v
    case Null => NoId
    case Bool(b) => BoolId(b)
    case Int(n) => IntId(n)
    case Str(s) => StrId(s)
  }

  /** `!$this->id`: an unset id, false, the integer 0, "" and "0". */
  predicate IdIsFalsy(id: Id)
    ensures IdIsFalsy(id) <==> IsFalsy(IdValue(id))
  {
    match id
    case NoId => true
    case BoolId(b) => !b
    case IntId(n) => n == 0
    case StrId(s) => s == "" || s == "0"
  }

  /** The string `strpos` sees when handed the id: PHP's string cast, which
      turns true into "1" and false into "". */
  function IdToString(id: Id): string {
    match id
    case NoId => ""
    case BoolId(b) => if b then "1" else ""
    case IntId(n) => IntToString(n)
    case StrId(s) => s
  }

  /** Only a string id can start with "new": the string form of a boolean
      is "1" or "", and that of an integer starts with a digit or `-`. */
  lemma NonStringIdNotNew(id: Id)
    ensures !id.StrId? ==> !StartsWith(IdToString(id), "new")
  {
    if id.IntId? {
      var s := IntToString(id.n);
      assert s[0] != 'n';
      assert |s| >= 3 ==> s[..3][0] == s[0];
    }
  }

  /** A component is new exactly when its id is falsy or is a string that
      starts with "new"; an integer id is new only when it is 0, and a
      boolean one only when it is false. */
  predicate GetIsNew(c: Component)
    ensures GetIsNew(c) <==>
      || c.id == NoId
      || c.id == BoolId(false)
      || c.id == IntId(0)
      || c.id == StrId("")
      || c.id == StrId("0")
      || (c.id.StrId? && StartsWith(c.id.s, "new"))
  {
    StrPosZeroIffPrefix(IdToString(c.id), "new");
    NonStringIdNotNew(c.id);
    IdIsFalsy(c.id) || StrPos(IdToString(c.id), "new") == Some(0)
  }

  /** The edge cases of the PHP truthiness rule, one by one. */
  lemma GetIsNewExamples(c: Component)
    ensures GetIsNew(c.(id := StrId("0")))
    ensures GetIsNew(c.(id := StrId("")))
    ensures GetIsNew(c.(id := NoId))
    ensures GetIsNew(c.(id := IntId(0)))
    ensures GetIsNew(c.(id := StrId("new3")))
    ensures !GetIsNew(c.(id := StrId("42")))
    ensures !GetIsNew(c.(id := StrId("xnew")))
    ensures !GetIsNew(c.(id := IntId(42)))
    ensures GetIsNew(c.(id := BoolId(false)))
    ensures !GetIsNew(c.(id := BoolId(true)))
  {
    assert StrId("xnew").s[..3] == "xne";
  }

  // ---------------------------------------------------------------------------
  // settingsAttributes
  // ---------------------------------------------------------------------------

  /** A property that is a setting of class `cls`: public, non-static and
      declared on `cls` itself rather than inherited. */
  predicate OwnSetting(p: Property, cls: string) {
    p.isPublic && !p.isStatic && p.declaringClass == cls
  }

  /** The names of the properties in `ps` that are settings of `cls`, in order. */
  function OwnSettingNames(ps: seq<Property>, cls: string): (names: seq<string>)
    ensures |names| <= |ps|
    ensures forall n :: n in names ==> exists i :: 0 <= i < |ps| && OwnSetting(ps[i], cls) && ps[i].name == n
    ensures forall i :: 0 <= i < |ps| && OwnSetting(ps[i], cls) ==> ps[i].name in names
    decreases |ps|
  {
    if |ps| == 0 then []
    else
      var rest := OwnSettingNames(ps[1..], cls);
      assert forall i :: 1 <= i < |ps| ==> ps[i] == ps[1..][i - 1];
      (if OwnSetting(ps[0], cls) then [ps[0].name] else []) + rest
  }

  /** The property names as reflection lists them. */
  function Names(ps: seq<Property>): seq<string> {
    seq(|ps|, i requires 0 <= i < |ps| => ps[i].name)
  }

  /** `settingsAttributes()`: the names of the component class's own public,
      non-static properties, each once when reflection lists each name once. */
  function SettingsAttributes(c: Component): (names: seq<string>)
    ensures forall n :: n in names <==>
      exists p :: p in c.properties && OwnSetting(p, c.className) && p.name == n
    ensures Distinct(Names(c.properties)) ==> Distinct(names)
  {
    var ps := c.properties;
    assert forall p :: p in ps ==> exists i :: 0 <= i < |ps| && ps[i] == p;
    if Distinct(Names(ps)) then OwnSettingNamesDistinct(ps, c.className); OwnSettingNames(ps, c.className)
    else OwnSettingNames(ps, c.className)
  }

  /** The filter splits over concatenation, so it keeps reflection order. */
  lemma {:induction false} OwnSettingNamesAppend(a: seq<Property>, b: seq<Property>, cls: string)
    ensures OwnSettingNames(a + b, cls) == OwnSettingNames(a, cls) + OwnSettingNames(b, cls)
    decreases |a|
  {
    if |a| == 0 {
      assert a + b == b;
    } else {
      assert (a + b)[0] == a[0];
      assert (a + b)[1..] == a[1..] + b;
      OwnSettingNamesAppend(a[1..], b, cls);
    }
  }

  /** One property contributes its name exactly when it is an own setting. */
  lemma OwnSettingNamesSingle(p: Property, cls: string)
    ensures OwnSettingNames([p], cls) == if OwnSetting(p, cls) then [p.name] else []
  {
    assert [p][1..] == [];
  }

  /** A subclass `Foo` of a class with public property `bar` that declares
      its own public property `baz` has the single setting `baz`. */
  lemma InheritedPropertyIsNoSetting(c: Component)
    requires c.className == "Foo"
    requires c.properties == [Property("baz", true, false, "Foo"), Property("bar", true, false, "Base")]
    ensures SettingsAttributes(c) == ["baz"]
  {
    var baz, bar := Property("baz", true, false, "Foo"), Property("bar", true, false, "Base");
    assert c.properties == [baz] + [bar];
    OwnSettingNamesAppend([baz], [bar], "Foo");
    OwnSettingNamesSingle(baz, "Foo");
    OwnSettingNamesSingle(bar, "Foo");
  }

  /** Reflection lists each property name once, every non-static
      property has a value, and the `id` property agrees with the id. */
  predicate Valid(c: Component) {
    && Distinct(Names(c.properties))
    && (forall i :: 0 <= i < |c.properties| && !c.properties[i].isStatic ==> c.properties[i].name in c.values)
    && ("id" in c.values ==> c.values["id"] == IdValue(c.id))
  }

  /** With distinct property names, the first name is no setting of the rest. */
  lemma HeadNotLater(ps: seq<Property>, cls: string)
    requires |ps| > 0 && Distinct(Names(ps))
    ensures ps[0].name !in OwnSettingNames(ps[1..], cls)
  {
    forall n | n in OwnSettingNames(ps[1..], cls)
      ensures n != ps[0].name
    {
      var i :| 0 <= i < |ps[1..]| && OwnSetting(ps[1..][i], cls) && ps[1..][i].name == n;
      assert Names(ps)[i + 1] == n;
      assert Names(ps)[0] == ps[0].name;
    }
  }

  lemma {:induction false} OwnSettingNamesDistinct(ps: seq<Property>, cls: string)
    requires Distinct(Names(ps))
    ensures Distinct(OwnSettingNames(ps, cls))
    decreases |ps|
  {
    if |ps| > 0 {
      assert Names(ps[1..]) == Names(ps)[1..];
      OwnSettingNamesDistinct(ps[1..], cls);
      var rest := OwnSettingNames(ps[1..], cls);
      HeadNotLater(ps, cls);
      var names := OwnSettingNames(ps, cls);
      if OwnSetting(ps[0], cls) {
        assert names == [ps[0].name] + rest;
        forall i, j | 0 <= i < j < |names|
          ensures names[i] != names[j]
        {
          if i == 0 {
            assert names[0] == ps[0].name;
            assert names[j] == rest[j - 1] && rest[j - 1] in rest;
          } else {
            assert names[i] == rest[i - 1] && names[j] == rest[j - 1];
            assert Distinct(rest);
          }
        }
      } else {
        assert names == rest;
      }
    }
  }

  // ---------------------------------------------------------------------------
  // getSettings
  // ---------------------------------------------------------------------------

  /** Every setting name can be read off the component. */
  predicate SettingsReadable(c: Component) {
    forall n :: n in SettingsAttributes(c) ==> n in c.values
  }

  /** The loop body of `getSettings`, run over `names` from array `acc`. */
  function CollectSettings(acc: PhpArray, names: seq<string>, values: map<string, Value>): (r: PhpArray)
    requires Distinct(Keys(acc))
    requires forall n :: n in names ==> n in values
    ensures Distinct(Keys(r))
    ensures forall n :: n in names ==> Lookup(r, n) == Some(values[n])
    ensures forall n :: n !in names ==> Lookup(r, n) == Lookup(acc, n)
    decreases |names|
  {
    if |names| == 0 then acc
    else
      var next := Put(acc, names[0], values[names[0]]);
      PutUnique(acc, names[0], values[names[0]]);
      assert forall n :: n != names[0] ==> Lookup(next, n) == Lookup(acc, n) by {
        forall n | n != names[0] ensures Lookup(next, n) == Lookup(acc, n) {
          PutOthers(acc, names[0], values[names[0]], n);
        }
      }
      assert forall n :: n in names[1..] ==> n in names;
      assert forall n :: n in names && n != names[0] ==> n in names[1..];
      CollectSettings(next, names[1..], values)
  }

  lemma AppendHead(prefix: seq<string>, names: seq<string>)
    requires |names| > 0
    ensures prefix + [names[0]] + names[1..] == prefix + names
  {
    assert names == [names[0]] + names[1..];
  }

  /** Distinct new names are appended as keys in the order they are visited. */
  lemma {:induction false} CollectSettingsKeys(acc: PhpArray, names: seq<string>, values: map<string, Value>)
    requires Distinct(Keys(acc))
    requires forall n :: n in names ==> n in values
    requires Distinct(names)
    requires forall n :: n in names ==> n !in Keys(acc)
    ensures Keys(CollectSettings(acc, names, values)) == Keys(acc) + names
    decreases |names|
  {
    if |names| > 0 {
      var head, tail := names[0], names[1..];
      var next := Put(acc, head, values[head]);
      PutKeys(acc, head, values[head]);
      PutUnique(acc, head, values[head]);
      assert Keys(next) == Keys(acc) + [head];
      assert Distinct(tail);
      forall n | n in tail
        ensures n in values && n !in Keys(next)
      {
        var i :| 0 <= i < |tail| && tail[i] == n;
        assert names[i + 1] == n;
      }
      CollectSettingsKeys(next, tail, values);
      assert CollectSettings(acc, names, values) == CollectSettings(next, tail, values);
      AppendHead(Keys(acc), names);
    }
  }

  /** `getSettings()`: each setting name mapped to its current value. */
  function GetSettings(c: Component): (settings: PhpArray)
    requires SettingsReadable(c)
    ensures forall n :: n in SettingsAttributes(c) ==> Lookup(settings, n) == Some(c.values[n])
    ensures forall n :: n !in SettingsAttributes(c) ==> Lookup(settings, n).None?
    ensures Distinct(Names(c.properties)) ==> Keys(settings) == SettingsAttributes(c)
  {
    assert Distinct(Names(c.properties)) ==>
      Keys(CollectSettings([], SettingsAttributes(c), c.values)) == SettingsAttributes(c) by {
      if Distinct(Names(c.properties)) {
        CollectSettingsKeys([], SettingsAttributes(c), c.values);
      }
    }
    CollectSettings([], SettingsAttributes(c), c.values)
  }

  /** `$component->name = v`, for a property the component has. Writing
      `id` changes the id that `getIsNew` reads. */
  function SetAttribute(c: Component, name: string, v: Value): (c': Component)
    requires name in c.values
    ensures Valid(c) ==> Valid(c')
    ensures name in c'.values && c'.values[name] == v
    ensures forall n :: n in c.values && n != name ==> n in c'.values && c'.values[n] == c.values[n]
    ensures c'.values.Keys == c.values.Keys
    ensures SettingsAttributes(c') == SettingsAttributes(c)
    ensures name == "id" ==> IdValue(c'.id) == v
    ensures name != "id" ==> c'.id == c.id
    ensures name == "id" ==> (GetIsNew(c') <==> IsFalsy(v) || (v.Str? && StartsWith(v.s, "new")))
  {
    if name == "id" then c.(values := c.values[name := v], id := IdOf(v))
    else c.(values := c.values[name := v])
  }

  /** Assigning the id before asking: "42" makes a new component old, and
      "new7" makes any component new. */
  lemma IdWriteSeenByGetIsNew(c: Component)
    requires "id" in c.values
    ensures !GetIsNew(SetAttribute(c, "id", Str("42")))
    ensures GetIsNew(SetAttribute(c, "id", Str("new7")))
  {
    assert Str("42").s[..2] == "42";
    assert Str("new7").s[..3] == "new";
  }

  /** Settings are read at call time: a value assigned beforehand is the
      one reported, and the other settings are untouched. */
  lemma SettingsReflectAssignment(c: Component, name: string, v: Value)
    requires Valid(c)
    requires name in SettingsAttributes(c)
    ensures
      var c' := SetAttribute(c, name, v);
      && Keys(GetSettings(c')) == Keys(GetSettings(c))
      && Lookup(GetSettings(c'), name) == Some(v)
      && forall n :: n != name ==> Lookup(GetSettings(c'), n) == Lookup(GetSettings(c), n)
  {
  }

  /** Component "new3" with settings color="red" and size=10. */
  lemma SettingsScenario(bus: Bus)
    ensures
      var c := Component("Widget", StrId("new3"),
        [Property("color", true, false, "Widget"), Property("size", true, false, "Widget")],
        map["color" := Str("red"), "size" := Int(10)], bus);
      && GetSettings(c) == [("color", Str("red")), ("size", Int(10))]
      && GetIsNew(c)
  {
    var c := Component("Widget", StrId("new3"),
      [Property("color", true, false, "Widget"), Property("size", true, false, "Widget")],
      map["color" := Str("red"), "size" := Int(10)], bus);
    var color, size := c.properties[0], c.properties[1];
    assert c.properties == [color] + [size];
    OwnSettingNamesAppend([color], [size], "Widget");
    OwnSettingNamesSingle(color, "Widget");
    OwnSettingNamesSingle(size, "Widget");
    assert SettingsAttributes(c) == ["color", "size"];
    var red, ten := Str("red"), Int(10);
    assert Put([], "color", red) == [("color", red)];
    assert Put([("color", red)], "size", ten) == [("color", red), ("size", ten)];
    assert CollectSettings([], ["color", "size"], c.values) == CollectSettings([("color", red)], ["size"], c.values);
    assert CollectSettings([("color", red)], ["size"], c.values) == CollectSettings([("color", red), ("size", ten)], [], c.values);
    assert c.id.s[..3] == "new";
  }

  // ---------------------------------------------------------------------------
  // beforeSave, afterSave, beforeDelete, afterDelete
  // ---------------------------------------------------------------------------

  /** What a before-hook leaves behind: the component (with its log
      extended) and whether the pending action may go ahead. */
  datatype Gate = Gate(component: Component, allowed: bool)

  /** `beforeSave($isNew)`: trigger "beforeSave" with a fresh event carrying
      the caller's `isNew`, and answer the event's final `isValid`. */
  function BeforeSave(c: Component, isNew: bool): (g: Gate)
    ensures SameState(g.component, c)
    ensures g.component.bus.log == c.bus.log + [Fired(EventBeforeSave, Some(ModelEvent(isNew, true)))]
    ensures g.allowed == Outcome(HandlersOf(c.bus, EventBeforeSave), ModelEvent(isNew, true)).isValid
    ensures HandlersOf(c.bus, EventBeforeSave) == [] ==> g.allowed
  {
    var t := Trigger(c.bus, EventBeforeSave, Fresh(isNew));
    Gate(c.(bus := t.bus), t.event.isValid)
  }

  /** `afterSave($isNew)`: trigger "afterSave" with an event carrying the
      caller's `isNew`; nothing is returned. */
  function AfterSave(c: Component, isNew: bool): (c': Component)
    ensures SameState(c', c)
    ensures c'.bus.log == c.bus.log + [Fired(EventAfterSave, Some(ModelEvent(isNew, true)))]
  {
    c.(bus := Trigger(c.bus, EventAfterSave, Fresh(isNew)).bus)
  }

  /** `beforeDelete()`: trigger "beforeDelete" with a default event and
      answer its final `isValid`. */
  function BeforeDelete(c: Component): (g: Gate)
    ensures SameState(g.component, c)
    ensures g.component.bus.log == c.bus.log + [Fired(EventBeforeDelete, Some(ModelEvent(false, true)))]
    ensures g.allowed == Outcome(HandlersOf(c.bus, EventBeforeDelete), ModelEvent(false, true)).isValid
    ensures HandlersOf(c.bus, EventBeforeDelete) == [] ==> g.allowed
  {
    var t := Trigger(c.bus, EventBeforeDelete, Fresh(false));
    Gate(c.(bus := t.bus), t.event.isValid)
  }

  /** `afterDelete()`: trigger "afterDelete" without an event object. */
  function AfterDelete(c: Component): (c': Component)
    ensures SameState(c', c)
    ensures c'.bus.log == c.bus.log + [Fired(EventAfterDelete, None)]
  {
    c.(bus := Notify(c.bus, EventAfterDelete))
  }

  /** The save gate answers what the last handler to change `isValid` in
      this dispatch left there. */
  lemma BeforeSaveLastWriteWins(c: Component, isNew: bool, k: nat)
    requires k < |HandlersOf(c.bus, EventBeforeSave)|
    requires ValidityUntouchedAfter(HandlersOf(c.bus, EventBeforeSave), Fresh(isNew), k)
    ensures
      var ls := HandlersOf(c.bus, EventBeforeSave);
      BeforeSave(c, isNew).allowed == ls[k](Seen(ls, Fresh(isNew))[k]).isValid
  {
    var ls := HandlersOf(c.bus, EventBeforeSave);
    LastWriteWins(ls, Fresh(isNew), k);
  }

  /** The delete gate answers what the last handler to change `isValid` in
      this dispatch left there. */
  lemma BeforeDeleteLastWriteWins(c: Component, k: nat)
    requires k < |HandlersOf(c.bus, EventBeforeDelete)|
    requires ValidityUntouchedAfter(HandlersOf(c.bus, EventBeforeDelete), Fresh(false), k)
    ensures
      var ls := HandlersOf(c.bus, EventBeforeDelete);
      BeforeDelete(c).allowed == ls[k](Seen(ls, Fresh(false))[k]).isValid
  {
    var ls := HandlersOf(c.bus, EventBeforeDelete);
    LastWriteWins(ls, Fresh(false), k);
  }

  /** A veto on save holds when no later handler lifts it in this dispatch. */
  lemma BeforeSaveVeto(c: Component, isNew: bool, k: nat)
    requires k < |HandlersOf(c.bus, EventBeforeSave)|
    requires !HandlersOf(c.bus, EventBeforeSave)[k](Seen(HandlersOf(c.bus, EventBeforeSave), Fresh(isNew))[k]).isValid
    requires VetoKeptAfter(HandlersOf(c.bus, EventBeforeSave), Fresh(isNew), k)
    ensures !BeforeSave(c, isNew).allowed
  {
    var ls := HandlersOf(c.bus, EventBeforeSave);
    VetoSticks(ls, Fresh(isNew), k);
  }

  /** A veto on delete holds when no later handler lifts it in this dispatch. */
  lemma BeforeDeleteVeto(c: Component, k: nat)
    requires k < |HandlersOf(c.bus, EventBeforeDelete)|
    requires !HandlersOf(c.bus, EventBeforeDelete)[k](Seen(HandlersOf(c.bus, EventBeforeDelete), Fresh(false))[k]).isValid
    requires VetoKeptAfter(HandlersOf(c.bus, EventBeforeDelete), Fresh(false), k)
    ensures !BeforeDelete(c).allowed
  {
    var ls := HandlersOf(c.bus, EventBeforeDelete);
    VetoSticks(ls, Fresh(false), k);
  }

  /** The hook code never reads the id: it hands the first listener the
      caller's `isNew`, not the component's own `GetIsNew`. Since listeners
      here see only the event and not its sender, changing the id changes
      nothing the save hooks do. */
  lemma SaveHooksIgnoreId(c: Component, isNew: bool, id: Id)
    ensures BeforeSave(c.(id := id), isNew).allowed == BeforeSave(c, isNew).allowed
    ensures BeforeSave(c.(id := id), isNew).component.bus == BeforeSave(c, isNew).component.bus
    ensures AfterSave(c.(id := id), isNew).bus == AfterSave(c, isNew).bus
    ensures |HandlersOf(c.bus, EventBeforeSave)| > 0 ==>
      Seen(HandlersOf(c.bus, EventBeforeSave), Fresh(isNew))[0].isNew == isNew
  {
  }

  /** Two `afterSave` calls fire two identical events; nothing is deduplicated. */
  lemma AfterSaveTwice(c: Component, isNew: bool)
    ensures
      var c2 := AfterSave(AfterSave(c, isNew), isNew);
      var e := Fired(EventAfterSave, Some(ModelEvent(isNew, true)));
      c2.bus.log == c.bus.log + [e, e] && SameState(c2, c)
  {
  }

  /** Two `afterDelete` calls fire two events; nothing is deduplicated. */
  lemma AfterDeleteTwice(c: Component)
    ensures
      var c2 := AfterDelete(AfterDelete(c));
      c2.bus.log == c.bus.log + [Fired(EventAfterDelete, None), Fired(EventAfterDelete, None)]
      && SameState(c2, c)
  {
  }
}
