/**
 Collection-to-provider binding (`addEADFileLocation`): every provider
 configuration whose key occurs, ignoring case, in the name of a compressed
 collection is pointed at that collection's archive.
 */
module CollectionBinding {
  import opened Records
  import opened Text

  /** The fields of a provider configuration; only the last two are ever written here. */
  datatype ProviderConfig = ProviderConfig(
    repository: string, repositoryName: string, log: string, ingestPropertyFile: string,
    eadFolderName: string, eadFileLocation: string)

  /** A compressed collection: its name and the absolute path of its archive. */
  datatype Collection = Collection(name: string, archivePath: string)

  predicate Binds(c: Collection, key: string)
  {
    ContainsIgnoreCase(c.name, key)
  }

  /** Collection `i` binds `key` and no later one does. */
  predicate IsLastBinding(collections: seq<Collection>, key: string, i: int)
  {
    0 <= i < |collections| && Binds(collections[i], key)
    && forall j :: i < j < |collections| ==> !Binds(collections[j], key)
  }

  /** The index of the last collection whose name contains `key` ignoring case, or -1. */
  function LastMatchIndex(collections: seq<Collection>, key: string): (i: int)
    ensures -1 <= i < |collections|
    ensures i >= 0 ==> Binds(collections[i], key)
    ensures forall j :: i < j < |collections| ==> !Binds(collections[j], key)
    decreases |collections|
  {
    if collections == [] then -1
    else if Binds(collections[|collections| - 1], key) then |collections| - 1
    else LastMatchIndex(collections[..|collections| - 1], key)
  }

  /** The last collection, in iteration order, whose name contains `key` ignoring case. */
  function LastMatch(collections: seq<Collection>, key: string): (r: Option<Collection>)
    ensures r.None? <==> forall c :: c in collections ==> !Binds(c, key)
    ensures r.Some? ==> exists i :: IsLastBinding(collections, key, i) && collections[i] == r.value
  {
    var i := LastMatchIndex(collections, key);
    if i < 0 then None
    else
      assert IsLastBinding(collections, key, i);
      Some(collections[i])
  }

  /** A configuration after being pointed at a collection, if any. */
  function BoundTo(config: ProviderConfig, found: Option<Collection>): ProviderConfig
  {
    match found
    case None => config
    case Some(c) => config.(eadFileLocation := c.archivePath, eadFolderName := c.name)
  }

  /** Every configuration bound to its last matching collection among `collections`. */
  function BindAll(configs: map<string, ProviderConfig>, collections: seq<Collection>): (r: map<string, ProviderConfig>)
    ensures r.Keys == configs.Keys
  {
    map k | k in configs :: BoundTo(configs[k], LastMatch(collections, k))
  }

  /** A configuration pointed at one collection when that collection's name contains `key`. */
  function Rebound(config: ProviderConfig, collection: Collection, key: string): ProviderConfig
  {
    if Binds(collection, key)
    then config.(eadFileLocation := collection.archivePath, eadFolderName := collection.name)
    else config
  }

  /**
   The source's nested loop, collections in their iteration order outside.
   Each configuration ends up bound to its last matching collection, or
   unchanged when none matches.
   */
  method AddEadFileLocation(configs: map<string, ProviderConfig>, collections: seq<Collection>)
    returns (updated: map<string, ProviderConfig>)
    ensures updated.Keys == configs.Keys
    ensures forall k :: k in configs ==> updated[k] == BoundTo(configs[k], LastMatch(collections, k))
  {
    updated := configs;
    assert updated == BindAll(configs, collections[..0]);
    for i := 0 to |collections|
      invariant updated == BindAll(configs, collections[..i])
    {
      updated := BindCollection(updated, collections[i]);
      assert updated == BindAll(configs, collections[..i + 1]) by {
        BindStep(configs, collections, i);
      }
    }
    assert collections[..|collections|] == collections;
  }

  /**
   The inner loop over the configuration keys, taken in an unspecified order:
   every configuration whose key the collection's name contains is pointed at
   it. Each key is written at most once, so the order does not matter.
   */
  method BindCollection(configs: map<string, ProviderConfig>, collection: Collection)
    returns (updated: map<string, ProviderConfig>)
    ensures updated.Keys == configs.Keys
    ensures forall k :: k in configs ==> updated[k] == Rebound(configs[k], collection, k)
  {
    updated := configs;
    var keys := configs.Keys;
    while keys != {}
      invariant keys <= configs.Keys
      invariant updated.Keys == configs.Keys
      invariant forall k :: k in updated ==>
        updated[k] == if k in keys then configs[k] else Rebound(configs[k], collection, k)
      decreases keys
    {
      var providerC :| providerC in keys;
      if ContainsIgnoreCase(collection.name, providerC) {
        var config := updated[providerC];
        config := config.(eadFileLocation := collection.archivePath);
        config := config.(eadFolderName := collection.name);
        updated := updated[providerC := config];
      }
      keys := keys - {providerC};
    }
  }

  /** One more collection re-binds exactly the configurations whose key its name contains. */
  lemma BindStep(configs: map<string, ProviderConfig>, collections: seq<Collection>, i: nat)
    requires i < |collections|
    ensures forall k :: k in configs ==>
      BindAll(configs, collections[..i + 1])[k] == Rebound(BindAll(configs, collections[..i])[k], collections[i], k)
  {
    LastMatchStep(collections, i, configs.Keys);
  }

  /** Taking one more collection into account changes the last match only for the keys it binds. */
  lemma LastMatchStep(collections: seq<Collection>, i: nat, keys: set<string>)
    requires i < |collections|
    ensures forall k :: k in keys ==>
      LastMatch(collections[..i + 1], k)
        == if Binds(collections[i], k) then Some(collections[i]) else LastMatch(collections[..i], k)
  {
    assert collections[..i + 1][..i] == collections[..i];
  }

  /** A configuration no collection name contains is left exactly as it was. */
  lemma UnmatchedConfigUnchanged(config: ProviderConfig, collections: seq<Collection>, key: string)
    requires forall c :: c in collections ==> !ContainsIgnoreCase(c.name, key)
    ensures BoundTo(config, LastMatch(collections, key)) == config
  {
  }

  /**
   A matched configuration gets the name and archive path of a collection
   whose name contains its key ignoring case; its other fields keep their values.
   */
  lemma MatchedConfigBound(config: ProviderConfig, collections: seq<Collection>, key: string)
    requires exists c :: c in collections && ContainsIgnoreCase(c.name, key)
    ensures var b := BoundTo(config, LastMatch(collections, key));
      && (exists c :: c in collections && ContainsIgnoreCase(c.name, key)
                      && b.eadFolderName == c.name && b.eadFileLocation == c.archivePath)
      && b.(eadFolderName := config.eadFolderName, eadFileLocation := config.eadFileLocation) == config
  {
    var c := LastMatch(collections, key).value;
    assert c in collections;
  }

  /** With two matching collections, the one later in iteration order wins. */
  lemma LastMatchWins(config: ProviderConfig, first: Collection, second: Collection, key: string)
    requires ContainsIgnoreCase(first.name, key) && ContainsIgnoreCase(second.name, key)
    ensures BoundTo(config, LastMatch([first, second], key)).eadFolderName == second.name
    ensures BoundTo(config, LastMatch([first, second], key)).eadFileLocation == second.archivePath
  {
  }
}
