/** The plugin-list update of update-config.cjs: make sure the config's
    `plugin` field is an array, drop the published package names from it
    and append the local checkout's path unless it is already there.
    Reading, parsing, printing and writing the file are outside the model:
    the script's input is what reading and parsing produced, its output the
    value it writes back (or the TypeError it stops with). */
module UpdateConfig {
  import opened Text

  /** A parsed JSON value. Numbers are kept as integers. */
  datatype Json =
    | JNull
    | JBool(b: bool)
    | JNumber(n: int)
    | JString(s: string)
    | JArray(items: seq<Json>)
    | JObject(fields: map<string, Json>)

  const RemotePackage := "opencode-ag-auth@latest"
  const BarePackage := "opencode-ag-auth"
  /** The local checkout the script points the config at. */
  const PluginPath := "/home/kailashaf/.gemini/antigravity/playground/dynamic-spirit/opencode-ag-auth"

  /** The entries the filter drops: strictly equal to one of the two
      published names (a non-string entry never is). */
  predicate Published(p: Json)
  {
    p == JString(RemotePackage) || p == JString(BarePackage)
  }

  /** `plugin.filter(p => p !== RemotePackage && p !== BarePackage)`. */
  function WithoutPublished(items: seq<Json>): (r: seq<Json>)
    ensures forall x :: x in r <==> x in items && !Published(x)
  {
    if |items| == 0 then []
    else (if Published(items[0]) then [] else [items[0]]) + WithoutPublished(items[1..])
  }

  /** The entries before the update: the array, or [] when `plugin` is
      missing or not an array (an array is always truthy, so the `!plugin`
      test adds nothing to the isArray test). */
  function CurrentPlugins(plugin: Option<Json>): seq<Json>
  {
    if plugin.Some? && plugin.value.JArray? then plugin.value.items else []
  }

  /** The `plugin` array after lines 28-38 of the script. */
  function UpdatedPlugins(plugin: Option<Json>, path: string): seq<Json>
  {
    var kept := WithoutPublished(CurrentPlugins(plugin));
    if JString(path) in kept then kept else kept + [JString(path)]
  }

  function Lookup(fields: map<string, Json>, key: string): Option<Json>
  {
    if key in fields then Some(fields[key]) else None
  }

  /** The parsed config object; its properties are updated in place. */
  class Config {
    var fields: map<string, Json>

    constructor (fields: map<string, Json>)
      ensures this.fields == fields
    {
      this.fields := fields;
    }

    /** Lines 28-38: normalise, filter and append, touching only `plugin`. */
    method EnsureLocalPlugin(path: string)
      modifies this
      ensures fields == old(fields)["plugin" := JArray(UpdatedPlugins(Lookup(old(fields), "plugin"), path))]
    {
      if "plugin" !in fields || !fields["plugin"].JArray? {
        fields := fields["plugin" := JArray([])];
      }
      fields := fields["plugin" := JArray(WithoutPublished(fields["plugin"].items))];
      if JString(path) !in fields["plugin"].items {
        fields := fields["plugin" := JArray(fields["plugin"].items + [JString(path)])];
      }
    }
  }

  /** What reading the config file gave. */
  datatype ConfigFile = Missing | Unparseable | Parsed(value: Json)

  /** What the script ends with: the value it writes, or the TypeError it
      throws before writing anything. */
  datatype Outcome = Written(value: Json) | TypeError

  /** The whole script on one config file. A missing or unparseable file
      starts from {}. On an array the `plugin` property is set but
      JSON.stringify does not write it, so the array is written back as it
      was. On null, reading `.plugin` throws; on a boolean, number or string
      the assignment of [] is dropped (the script is not in strict mode) and
      `.filter` of undefined throws. */
  method RunUpdate(file: ConfigFile, path: string) returns (outcome: Outcome)
    ensures !file.Parsed? ==> outcome == Written(JObject(map["plugin" := JArray([JString(path)])]))
    ensures file.Parsed? && file.value.JObject? ==>
      outcome == Written(JObject(file.value.fields["plugin" := JArray(UpdatedPlugins(Lookup(file.value.fields, "plugin"), path))]))
    ensures file.Parsed? && file.value.JArray? ==> outcome == Written(file.value)
    ensures file.Parsed? && !file.value.JObject? && !file.value.JArray? ==> outcome == TypeError
  {
    var initial := if file.Parsed? then file.value else JObject(map[]);
    match initial {
      case JObject(f) =>
        var config := new Config(f);
        config.EnsureLocalPlugin(path);
        outcome := Written(JObject(config.fields));
        if !file.Parsed? {
          assert UpdatedPlugins(Lookup(f, "plugin"), path) == [JString(path)];
          assert config.fields == map["plugin" := JArray([JString(path)])];
        }
      case JArray(_) =>
        outcome := Written(initial);
      case _ =>
        outcome := TypeError;
    }
  }

  // ---------------------------------------------------------------------
  // Properties of the update.

  /** The filter keeps order: filtering a concatenation filters each part. */
  lemma {:induction false} WithoutPublishedAppend(a: seq<Json>, b: seq<Json>)
    ensures WithoutPublished(a + b) == WithoutPublished(a) + WithoutPublished(b)
  {
    if |a| > 0 {
      assert (a + b)[1..] == a[1..] + b;
      WithoutPublishedAppend(a[1..], b);
    } else {
      assert a + b == b;
    }
  }

  /** The filter drops every copy of the published names and keeps every
      copy of everything else. */
  lemma {:induction false} WithoutPublishedCounts(items: seq<Json>, x: Json)
    ensures multiset(WithoutPublished(items))[x] == if Published(x) then 0 else multiset(items)[x]
  {
    if |items| > 0 {
      var head := if Published(items[0]) then [] else [items[0]];
      WithoutPublishedCounts(items[1..], x);
      assert items == [items[0]] + items[1..];
      assert multiset(WithoutPublished(items)) == multiset(head) + multiset(WithoutPublished(items[1..]));
    }
  }

  /** After the update the published names are gone (unless the path is one
      of them), the path is present, and the kept entries come first in
      their original order. */
  lemma UpdatedPluginsContents(plugin: Option<Json>, path: string)
    ensures JString(path) in UpdatedPlugins(plugin, path)
    ensures !Published(JString(path)) ==> forall x :: x in UpdatedPlugins(plugin, path) ==> !Published(x)
    ensures var kept := WithoutPublished(CurrentPlugins(plugin));
      UpdatedPlugins(plugin, path)[..|kept|] == kept && |UpdatedPlugins(plugin, path)| <= |kept| + 1
    ensures plugin.None? || !plugin.value.JArray? ==> UpdatedPlugins(plugin, path) == [JString(path)]
  {
  }

  /** The path is appended only when absent: its count becomes one if it was
      zero and otherwise stays as it was, and nothing else changes count
      beyond the filter's removals. */
  lemma UpdatedPluginsNoNewDuplicate(plugin: Option<Json>, path: string, x: Json)
    requires !Published(JString(path))
    ensures var before := multiset(CurrentPlugins(plugin))[x];
      multiset(UpdatedPlugins(plugin, path))[x]
        == if x == JString(path) then (if before == 0 then 1 else before)
           else if Published(x) then 0 else before
  {
    WithoutPublishedCounts(CurrentPlugins(plugin), x);
    WithoutPublishedCounts(CurrentPlugins(plugin), JString(path));
  }

  /** The filter leaves a filtered list unchanged. */
  lemma {:induction false} WithoutPublishedIdempotent(items: seq<Json>)
    ensures WithoutPublished(WithoutPublished(items)) == WithoutPublished(items)
  {
    if |items| > 0 {
      var head := if Published(items[0]) then [] else [items[0]];
      WithoutPublishedIdempotent(items[1..]);
      WithoutPublishedAppend(head, WithoutPublished(items[1..]));
    }
  }

  /** Running the update on its own output gives the same list again, for
      every path, including one that equals a published name. */
  lemma UpdateIdempotent(plugin: Option<Json>, path: string)
    ensures UpdatedPlugins(Some(JArray(UpdatedPlugins(plugin, path))), path) == UpdatedPlugins(plugin, path)
  {
    var kept := WithoutPublished(CurrentPlugins(plugin));
    var once := UpdatedPlugins(plugin, path);
    WithoutPublishedIdempotent(CurrentPlugins(plugin));
    if JString(path) !in kept {
      WithoutPublishedAppend(kept, [JString(path)]);
    }
  }

  /** Running the whole script twice writes what running it once wrote. */
  lemma RunTwiceSameList(fields: map<string, Json>, path: string)
    ensures var once := fields["plugin" := JArray(UpdatedPlugins(Lookup(fields, "plugin"), path))];
      once["plugin" := JArray(UpdatedPlugins(Lookup(once, "plugin"), path))] == once
  {
    var once := fields["plugin" := JArray(UpdatedPlugins(Lookup(fields, "plugin"), path))];
    UpdateIdempotent(Lookup(fields, "plugin"), path);
    assert Lookup(once, "plugin") == Some(JArray(UpdatedPlugins(Lookup(fields, "plugin"), path)));
  }

  /** The script's own path is not one of the published names. */
  lemma PluginPathNotPublished()
    ensures !Published(JString(PluginPath))
  {
    assert |PluginPath| != |RemotePackage| && |PluginPath| != |BarePackage|;
  }
}
