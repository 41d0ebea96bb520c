/**
 * `RedisConnectionDict`: the list of configured Redis servers, read from the
 * `RedisConnection` elements of a configuration document into a dictionary
 * keyed by host. The first element of a host wins; later ones are skipped.
 */
module ConnectionDict {
  import opened Common

  const CONNECTION_ELEMENT: string := "RedisConnection"
  const HOST: string := "Host"
  const NAME: string := "Name"
  const PORT: string := "Port"
  const AUTH: string := "Auth"
  const CONNECTION_TIMEOUT: string := "ConnectionTimeOut"
  const COMMAND_TIMEOUT: string := "CommandExecutionTimeOut"

  /** An element of the document: its name and its attributes. */
  datatype XElem = XElem(name: string, attributes: map<string, string>)

  /**
   * A stored configuration. The numeric attributes are kept as their text:
   * the conversion the loader applies to them is not part of this model.
   */
  datatype Config = Config(
    host: string,
    name: string,
    port: string,
    auth: string,
    connectionTimeOut: string,
    commandExecutionTimeOut: string)

  /** `GetAttributeValue`: the attribute's value, or the empty string when it is missing. */
  function AttributeValue(e: XElem, attributeName: string): (v: string)
    ensures attributeName in e.attributes ==> v == e.attributes[attributeName]
    ensures attributeName !in e.attributes ==> v == ""
  {
    if attributeName in e.attributes then e.attributes[attributeName] else ""
  }

  /** `Elements("RedisConnection")`: the children with that name, in document order. */
  function Connections(doc: seq<XElem>): (r: seq<XElem>)
    ensures |r| <= |doc|
    ensures forall i :: 0 <= i < |r| ==> r[i].name == CONNECTION_ELEMENT && r[i] in doc
    decreases |doc|
  {
    if |doc| == 0 then []
    else
      var rest := Connections(doc[..|doc| - 1]);
      var e := doc[|doc| - 1];
      if e.name == CONNECTION_ELEMENT then rest + [e] else rest
  }

  /** The configuration read from one element with a host. */
  function ConfigOf(e: XElem): Config
    requires HOST in e.attributes
  {
    Config(e.attributes[HOST], AttributeValue(e, NAME), AttributeValue(e, PORT), AttributeValue(e, AUTH),
           AttributeValue(e, CONNECTION_TIMEOUT), AttributeValue(e, COMMAND_TIMEOUT))
  }

  /** What the loading loop leaves: the dictionary, and whether it went through every element. */
  datatype Loaded = Loaded(dict: map<string, Config>, complete: bool)

  /** The host of an element, if it has one. */
  predicate HostIs(e: XElem, host: string) {
    HOST in e.attributes && e.attributes[HOST] == host
  }

  /**
   * The loop over `elements`: an element whose host is already a key is
   * skipped; an element without a host stops the loop with a null
   * dereference, leaving the entries added so far.
   */
  function Load(elements: seq<XElem>): (r: Loaded)
    ensures forall h :: h in r.dict ==> r.dict[h].host == h
    decreases |elements|
  {
    if |elements| == 0 then Loaded(map[], true)
    else
      var prev := Load(elements[..|elements| - 1]);
      var e := elements[|elements| - 1];
      if !prev.complete then prev
      else if HOST !in e.attributes then Loaded(prev.dict, false)
      else if e.attributes[HOST] in prev.dict then prev
      else Loaded(prev.dict[e.attributes[HOST] := ConfigOf(e)], true)
  }

  /** The loop goes through the whole list exactly when every element has a host. */
  lemma {:induction false} LoadCompleteIff(elements: seq<XElem>)
    ensures Load(elements).complete <==> forall i :: 0 <= i < |elements| ==> HOST in elements[i].attributes
    decreases |elements|
  {
    if |elements| > 0 {
      var n := |elements| - 1;
      LoadCompleteIff(elements[..n]);
      assert forall i :: 0 <= i < n ==> elements[..n][i] == elements[i];
    }
  }

  /**
   * Every entry is the configuration read from some element of its host, so
   * a missing `Name`, `Port`, `Auth` or timeout attribute is stored as the
   * empty text.
   */
  lemma {:induction false} LoadKeysFromElements(elements: seq<XElem>)
    ensures forall h :: h in Load(elements).dict ==>
      exists i :: 0 <= i < |elements| && HostIs(elements[i], h) && Load(elements).dict[h] == ConfigOf(elements[i])
    decreases |elements|
  {
    if |elements| > 0 {
      var n := |elements| - 1;
      var prefix := elements[..n];
      var prev := Load(prefix);
      LoadKeysFromElements(prefix);
      forall h | h in Load(elements).dict
        ensures exists i :: 0 <= i < |elements| && HostIs(elements[i], h) && Load(elements).dict[h] == ConfigOf(elements[i])
      {
        if h in prev.dict && Load(elements).dict[h] == prev.dict[h] {
          var k :| 0 <= k < n && HostIs(prefix[k], h) && prev.dict[h] == ConfigOf(prefix[k]);
          assert prefix[k] == elements[k];
        } else {
          assert HostIs(elements[n], h) && Load(elements).dict[h] == ConfigOf(elements[n]);
        }
      }
    }
  }

  /** There are at most as many entries as elements. */
  lemma {:induction false} LoadSize(elements: seq<XElem>)
    ensures |Load(elements).dict| <= |elements|
    decreases |elements|
  {
    if |elements| > 0 {
      LoadSize(elements[..|elements| - 1]);
    }
  }

  /**
   * First host wins: when the whole list loads, the entry of a host is the
   * configuration of the first element that names it.
   */
  lemma {:induction false} FirstHostWins(elements: seq<XElem>, i: nat)
    requires Load(elements).complete && i < |elements| && HOST in elements[i].attributes
    requires forall j :: 0 <= j < i ==> !HostIs(elements[j], elements[i].attributes[HOST])
    ensures elements[i].attributes[HOST] in Load(elements).dict
    ensures Load(elements).dict[elements[i].attributes[HOST]] == ConfigOf(elements[i])
    decreases |elements|
  {
    var n := |elements| - 1;
    var h := elements[i].attributes[HOST];
    var prefix := elements[..n];
    var prev := Load(prefix);
    var e := elements[n];
    assert prev.complete && HOST in e.attributes;
    assert forall k :: 0 <= k < n ==> prefix[k] == elements[k];
    if i < n {
      FirstHostWins(prefix, i);
      assert h in prev.dict && prev.dict[h] == ConfigOf(elements[i]);
      if e.attributes[HOST] !in prev.dict {
        assert e.attributes[HOST] != h;
        assert Load(elements).dict == prev.dict[e.attributes[HOST] := ConfigOf(e)];
      } else {
        assert Load(elements) == prev;
      }
    } else {
      LoadKeysFromElements(prefix);
      assert h !in prev.dict;
      assert Load(elements).dict == prev.dict[h := ConfigOf(e)];
    }
  }

  /** The dictionary with its document; both are null until something is loaded. */
  class RedisConnectionDict {
    var configDoc: Option<seq<XElem>>
    var redisConnDict: Option<map<string, Config>>

    /** The parameterless constructor: nothing loaded. */
    constructor ()
      ensures configDoc.None? && redisConnDict.None?
    {
      configDoc := None;
      redisConnDict := None;
    }

    /**
     * `Init`, with the loaded document as input: a fresh dictionary filled
     * from the connection elements in order. `false` is the null dereference
     * of an element without a host, after which the dictionary holds what was
     * added before it.
     */
    method Init(doc: seq<XElem>) returns (ok: bool)
      modifies this
      ensures configDoc == Some(doc)
      ensures redisConnDict == Some(Load(Connections(doc)).dict)
      ensures ok == Load(Connections(doc)).complete
    {
      configDoc := Some(doc);
      var dict: map<string, Config> := map[];
      redisConnDict := Some(dict);
      var elements := Connections(doc);
      var i := 0;
      while i < |elements|
        invariant 0 <= i <= |elements|
        invariant Load(elements[..i]) == Loaded(dict, true)
        invariant redisConnDict == Some(dict) && configDoc == Some(doc)
        decreases |elements| - i
      {
        var element := elements[i];
        assert elements[..i + 1][..i] == elements[..i];
        if HOST !in element.attributes {
          LoadStops(elements, i + 1);
          return false;
        }
        var host := element.attributes[HOST];
        if host in dict {
          i := i + 1;
          continue;
        }
        var config := Config(host, AttributeValue(element, NAME), AttributeValue(element, PORT),
                             AttributeValue(element, AUTH), AttributeValue(element, CONNECTION_TIMEOUT),
                             AttributeValue(element, COMMAND_TIMEOUT));
        dict := dict[host := config];
        redisConnDict := Some(dict);
        i := i + 1;
      }
      assert elements[..i] == elements;
      ok := true;
    }

    /**
     * `RedisConnectionDict(fileFullPath)`, with the loaded document as input:
     * the same loading as `Init` on a new object; `null` stands for the
     * exception a missing host raises, in which case no object is obtained.
     */
    static method FromDocument(doc: seq<XElem>) returns (d: RedisConnectionDict?)
      ensures d == null <==> !Load(Connections(doc)).complete
      ensures d != null ==> fresh(d) && d.configDoc == Some(doc) && d.redisConnDict == Some(Load(Connections(doc)).dict)
    {
      var dict := new RedisConnectionDict();
      var ok := dict.Init(doc);
      d := if ok then dict else null;
    }
  }

  /** Once an element without a host is reached, nothing after it changes the result. */
  lemma {:induction false} LoadStops(elements: seq<XElem>, k: nat)
    requires 0 < k <= |elements| && !Load(elements[..k]).complete
    ensures Load(elements) == Load(elements[..k])
    decreases |elements| - k
  {
    if k < |elements| {
      assert elements[..k + 1][..k] == elements[..k];
      LoadStops(elements, k + 1);
    } else {
      assert elements[..k] == elements;
    }
  }
}
