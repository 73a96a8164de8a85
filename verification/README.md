# Savable components and the asset-packagist migration, in Dafny

This project models two pieces of a PHP content-management system.

**Savable components** (`src/base/SavableComponent.php`) are persisted plug-in
objects such as field types and widget types. The model covers:

- the "is new" test on the component id, with PHP truthiness and `strpos`
  written out;
- how the settings attributes are derived from the properties that reflection
  reports;
- the settings array built from those attributes;
- the four lifecycle hooks, `beforeSave`, `afterSave`, `beforeDelete` and
  `afterDelete`.

Event handlers are pure functions from event to event. They run in the
order of the handler list, and each `trigger` call is recorded in a log on
the component.

**The `m170726_235332_drop_asset_packagist` migration**
(`src/migrations/m170726_235332_drop_asset_packagist.php`) removes the
asset-packagist.org repository from `composer.json`. The model keeps its list
transformation and its return values: it removes the first repository whose
`url` contains `//asset-packagist.org` and stops there.

Files:

- `wrappers.dfy`: `Option`.
- `php.dfy`: PHP runtime rules. These are `strpos`, the integer-to-string cast,
  and the ordered array built by `$a[$k] = $v`.
- `events.dfy`: model events, handler dispatch and the trigger log.
- `savable.dfy`: the savable component.
- `migration.dfy`: the migration.

The model follows the code, including four behaviours that are easy to
miss:

- A handler can lift a veto. Once a handler has set `isValid` to false, a
  later handler can set it back to true, and the hook then returns true.
  Nothing in `beforeSave`/`beforeDelete` prevents this (`Events.VetoCanBeLifted`).
  A veto is only guaranteed to hold when every later handler respects it
  in that dispatch (`Events.VetoSticks`).
- The event sent by the save hooks carries the caller's `$isNew` argument.
  It does not use the component's own `getIsNew()` (`Savable.SaveHooksIgnoreId`).
- The migration removes only the first matching repository, because of the
  `break` on line 40. So it is idempotent only when at most one entry matches
  (`DropAssetPackagist.SafeUpIdempotent`). With two or more matches, a second
  run removes another entry (`DropAssetPackagist.SafeUpNotIdempotent`).
- An integer id is converted to its decimal string before `strpos` looks for
  `"new"`. That string starts with a digit or `-`, so an integer id counts as
  new only when it is 0.

## Model

| member | source | states |
|---|---|---|
| Savable.IsSelectable | src/base/SavableComponent.php:61-64 | component types are selectable by default |
| Savable.GetSettingsHtml | src/base/SavableComponent.php:94-97 | by default there is no settings form (null) |
| Savable.IdOf | src/base/SavableComponent.php:74 | every modelled value assigned to `id` becomes an id whose PHP value is that same value |
| Savable.IdIsFalsy | src/base/SavableComponent.php:74 | `!$this->id` holds exactly when the id, as a PHP value, is falsy: unset, false, the integer 0, `""` or `"0"` |
| Savable.NonStringIdNotNew | src/base/SavableComponent.php:74 | the string cast of a boolean or integer id never starts with `"new"`, so only a string id can pass the `strpos` test |
| Savable.GetIsNew | src/base/SavableComponent.php:72-75 | a component is new exactly when its id is absent, false, the integer 0, `""`, `"0"`, or a string that starts with `"new"`; any other boolean, integer or string id is not new |
| Savable.GetIsNewExamples | src/base/SavableComponent.php:72-75 | `"0"`, `""`, no id, `0`, false and `"new3"` are new; `"42"`, `"xnew"`, `42` and true are not |
| Savable.OwnSettingNames | src/base/SavableComponent.php:102-114 | every returned name belongs to a public, non-static property declared on the concrete class, and every such property's name is returned |
| Savable.SettingsAttributes | src/base/SavableComponent.php:102-114 | a name is a settings attribute exactly when some property with that name is public, non-static and declared on the component's own class; when reflection lists each property name once, no settings attribute is listed twice |
| Savable.OwnSettingNamesAppend | src/base/SavableComponent.php:107-111 | the filter splits over concatenation, so the names keep reflection order and the result is a subsequence of the property list |
| Savable.OwnSettingNamesSingle | src/base/SavableComponent.php:108-109 | a single property contributes its name exactly when it is public, non-static and declared on the concrete class |
| Savable.InheritedPropertyIsNoSetting | src/base/SavableComponent.php:108 | for a class `Foo` with its own `baz` and an inherited `bar`, the settings attributes are `["baz"]` |
| Savable.HeadNotLater | src/base/SavableComponent.php:107-111 | when property names are distinct, the first property's name is not a setting name contributed by the properties after it |
| Savable.OwnSettingNamesDistinct | src/base/SavableComponent.php:107-111 | distinct property names give distinct setting names |
| Savable.CollectSettings | src/base/SavableComponent.php:84-86 | after the loop, each visited name maps to the component's current value for it, and every other key is unchanged |
| Savable.CollectSettingsKeys | src/base/SavableComponent.php:82-88 | distinct, previously absent names become keys in the order they are visited |
| Savable.GetSettings | src/base/SavableComponent.php:80-89 | every settings attribute maps to its current value and no other key is present; when reflection lists each property name once, the keys are exactly the settings attributes in the same order |
| Savable.SetAttribute | src/base/SavableComponent.php:72-89 | models a caller's property write, which the reads at lines 74 and 85 then see: it changes only that property's value and leaves the settings attributes as they were; writing `id` sets the id, so `getIsNew` then answers for the assigned value |
| Savable.IdWriteSeenByGetIsNew | src/base/SavableComponent.php:72-75 | after `$c->id = "42"` the component is not new, and after `$c->id = "new7"` it is |
| Savable.SettingsReflectAssignment | src/base/SavableComponent.php:84-85 | a value assigned before `getSettings` is the value reported; the keys and the other settings are unchanged |
| Savable.SettingsScenario | src/base/SavableComponent.php:72-89 | component `"new3"` with color "red" and size 10 has settings `[color => "red", size => 10]` and is new |
| Savable.BeforeSave | src/base/SavableComponent.php:122-131 | the answer is the `isValid` that the last handler leaves on an event starting as (isNew = argument, isValid = true); with no handlers it is true; exactly one "beforeSave" record is logged; id, properties and values are unchanged |
| Savable.AfterSave | src/base/SavableComponent.php:136-142 | exactly one "afterSave" record, carrying the caller's `isNew`, is logged; nothing else about the component changes |
| Savable.BeforeDelete | src/base/SavableComponent.php:147-154 | the answer is the `isValid` that the last handler leaves on a default event; with no handlers it is true; exactly one "beforeDelete" record is logged; the component is otherwise unchanged |
| Savable.AfterDelete | src/base/SavableComponent.php:159-163 | exactly one "afterDelete" record, with no event object, is logged; nothing else changes |
| Savable.BeforeSaveLastWriteWins | src/base/SavableComponent.php:122-131 | if every handler after k hands back, in this dispatch, the `isValid` it was handed, `beforeSave` returns the `isValid` that handler k produced |
| Savable.BeforeDeleteLastWriteWins | src/base/SavableComponent.php:147-154 | the same per-dispatch last-write rule for `beforeDelete` |
| Savable.BeforeSaveVeto | src/base/SavableComponent.php:31-36 | a handler that clears `isValid` prevents the save when no later handler sets it back in this dispatch |
| Savable.BeforeDeleteVeto | src/base/SavableComponent.php:43-48 | a handler that clears `isValid` prevents the delete when no later handler sets it back in this dispatch |
| Savable.SaveHooksIgnoreId | src/base/SavableComponent.php:122-142 | the hook code never reads the id: the first handler is handed the caller's `isNew`; because handlers here cannot reach the event's sender, the save hooks' answers and logged events are then the same for every id |
| Savable.AfterSaveTwice | src/base/SavableComponent.php:136-142 | two `afterSave` calls log two identical records, without deduplication |
| Savable.AfterDeleteTwice | src/base/SavableComponent.php:159-163 | two `afterDelete` calls log two records |
| Events.Fresh | src/base/SavableComponent.php:125-127 | a newly built event carries the given `isNew` and starts valid |
| Events.Run | src/base/SavableComponent.php:128-130 | running the handlers one after another gives the original event when there are no handlers, and otherwise what the last handler returns from the event it is handed |
| Events.Seen | src/base/SavableComponent.php:128 | handler 0 receives the original event; handler i+1 receives what handler i returned |
| Events.Trigger | src/base/SavableComponent.php:128 | triggering appends one record with the name and payload, keeps the handlers, and hands back the dispatched event |
| Events.Notify | src/base/SavableComponent.php:162 | triggering without an event object appends one record with no payload |
| Events.SeenIsPrefixRun | src/base/SavableComponent.php:128 | handler k is handed exactly what running the handlers before it produces |
| Events.LastWriteWins | src/base/SavableComponent.php:128-130 | dispatch ends with the `isValid` written by the last handler that changes it in this dispatch |
| Events.VetoSticks | src/base/SavableComponent.php:34 | a cleared `isValid` survives dispatch when no later handler that is handed it cleared sets it back |
| Events.ConditionalHandlerKeepsVeto | src/base/SavableComponent.php:147-153 | a handler that lifts a veto only on new records does not lift it on a default event, so the earlier veto stands |
| Events.VetoCanBeLifted | src/base/SavableComponent.php:128-130 | a handler that clears `isValid`, followed by one that sets it, leaves the event valid |
| Php.StrPos | src/base/SavableComponent.php:74 | for a non-empty needle, `strpos` gives the first character index where the needle occurs, and no earlier index holds it, or false when it occurs nowhere |
| Php.StrPosZeroIffPrefix | src/base/SavableComponent.php:74 | `strpos(...) === 0` holds exactly when the string starts with the needle |
| Php.ContainsIffOccurs | src/migrations/m170726_235332_drop_asset_packagist.php:33 | `strpos(...) !== false` holds exactly when the needle occurs somewhere |
| Php.IsFalsy | src/base/SavableComponent.php:74 | PHP's `!` is true exactly for null, false, 0, `""` and `"0"` among the modelled values |
| Php.Digits | src/base/SavableComponent.php:74 | the decimal digits of a number are non-empty, all digits, at least two for 10 and above, and start with 0 only for 0 itself |
| Php.IntToString | src/base/SavableComponent.php:74 | an integer's string form is non-empty, starts with `-` or a digit, and is `"0"` only for 0 |
| Php.DigitsRoundTrip | src/base/SavableComponent.php:74 | the digits of the string cast read back as the original number |
| Php.Put | src/base/SavableComponent.php:85 | after `$a[$k] = $v`, reading `$k` gives `$v` |
| Php.PutKeys | src/base/SavableComponent.php:85 | assigning an existing key keeps the key order; assigning a new key appends it at the end |
| Php.PutOthers | src/base/SavableComponent.php:85 | assigning one key leaves the value of every other key unchanged |
| Php.PutUnique | src/base/SavableComponent.php:85 | assignment never stores a key twice |
| DropAssetPackagist.IsAssetPackagist | src/migrations/m170726_235332_drop_asset_packagist.php:33 | an entry matches exactly when it has a `url` key and `//asset-packagist.org` occurs somewhere in it |
| DropAssetPackagist.FirstMatch | src/migrations/m170726_235332_drop_asset_packagist.php:32-33 | finds the index of the first entry with a url containing `//asset-packagist.org`, or reports that no entry matches |
| DropAssetPackagist.RemoveAt | src/migrations/m170726_235332_drop_asset_packagist.php:34-38 | `unset` followed by `array_merge` removes one entry, shifts the later entries down by one, and keeps the earlier ones |
| DropAssetPackagist.RemoveFirstAtFirstMatch | src/migrations/m170726_235332_drop_asset_packagist.php:32-40 | deleting at the first match agrees with the recursive "drop the first match" definition; with no match the list is unchanged |
| DropAssetPackagist.RemoveFirstCounts | src/migrations/m170726_235332_drop_asset_packagist.php:32-40 | when some entry matches, the list shrinks by one and loses exactly one match |
| DropAssetPackagist.RemoveFirstKeepsOthers | src/migrations/m170726_235332_drop_asset_packagist.php:33-34 | every entry that does not match keeps its multiplicity |
| DropAssetPackagist.UrlLessEntriesKept | src/migrations/m170726_235332_drop_asset_packagist.php:33 | an entry without a `url` key is never removed |
| DropAssetPackagist.DropFirstMatch | src/migrations/m170726_235332_drop_asset_packagist.php:32-42 | the loop with its `break` writes exactly when some entry matches; it then returns the list with only the first match dropped, as the recursive reference definition says; otherwise the list is unchanged |
| DropAssetPackagist.SafeUp | src/migrations/m170726_235332_drop_asset_packagist.php:18-45 | always succeeds; a missing document produces a warning and no change; otherwise the file is written exactly when a match exists, only the repositories change, and they lose their first match |
| DropAssetPackagist.SafeDown | src/migrations/m170726_235332_drop_asset_packagist.php:50-54 | reverting always reports failure and changes nothing |
| DropAssetPackagist.SafeUpIdempotent | src/migrations/m170726_235332_drop_asset_packagist.php:32-42 | with at most one match, a second run changes nothing and writes nothing |
| DropAssetPackagist.SafeUpNotIdempotent | src/migrations/m170726_235332_drop_asset_packagist.php:40 | with two or more matches, a second run writes again and removes one more entry |
| DropAssetPackagist.TwoMatchesExample | src/migrations/m170726_235332_drop_asset_packagist.php:32-40 | of two asset-packagist.org entries, a run writes the file and removes only the first; the second still matches |

## Left out

- PHP reflection (`\ReflectionClass`, `getProperties`) is not modelled. The property list that reflection reports is an input, in reflection order.
- The host event system is reduced to pure handlers run in order. Class-level handlers, the `handled` flag that stops dispatch, the event's `sender`/`name` fields, and handler side effects outside the event are not modelled. Those parts of the system are not in the modelled source.
- Handlers are total functions. A handler that throws, which propagates out of the hook unchanged, is not modelled.
- Savable.SaveHooksIgnoreId: a handler that reads the event's sender, and through it the component id, is not modelled, so the id-independence holds only for handlers that look at the event alone.
- The `ModelEvent` class is not part of this model. It is assumed that `isValid` defaults to true and `isNew` to false.
- Savable.AfterSave: handlers for "afterSave" do run, but their result is dropped, as in the source. Only the log record is observable.
- Savable.AfterDelete: the event object that the host builds for an argument-less `trigger` is not modelled. Only the log record is kept.
- The persistence layer that actually saves or deletes rows, and the order in which callers run the hooks around it, are not part of this model.
- `SavableComponentTrait` and the `Component` base class are not part of this model. The `id` property is taken from the trait.
- Savable.GetIsNew: float and array ids are not modelled. Only null, boolean, integer and string ids are.
- Savable.GetSettings: requires that every settings attribute has a value. Reads without a value are not modelled: from PHP 7.4 on, a typed property that was never assigned, or was `unset`, throws an `Error` at line 85, and an untyped property that was `unset` warns and reads as null.
- Savable.IsSelectable: it is a static method in the source. Here it is a function with no arguments.
- The migration's file and process side effects are not modelled: locating `composer.json` (`CRAFT_COMPOSER_PATH`), `JsonFile` read and write, `Craft::warning` and `echo`. A missing file is an absent document. A write and a warning are flags on the result.
- DropAssetPackagist.SafeUp: string-keyed repository maps (the non-numeric branch at line 36) are not modelled. The repositories are a list, which covers the numeric case.
- DropAssetPackagist.SafeUp: a configuration with no `repositories` key is not modelled. PHP would only warn in that case, and the outcome depends on the host error handler.
- Php.Value: attribute values are null, booleans, integers and strings. Arrays, floats and objects are not modelled. `getSettings` only copies values, so no behaviour depends on the value type.
- Php.StrPos: an empty needle is not modelled, because PHP 7 and PHP 8 answer differently. The modelled code only searches for "new" and "//asset-packagist.org".
- Php.StrPos: indexes count characters, while PHP counts bytes. For the ASCII needles used here the two agree on index 0 and on whether there is a match at all, which is all the modelled code asks.
- Repository entries keep only `type` and `url`. The migration reads no other field.
