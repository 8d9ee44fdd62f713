/** A target graph as it is stored and streamed: targets and metadata that refer
    to names by number. */
module Entity {
  import opened ByteStrings
  import opened Varint

  datatype OptimizedTarget = OptimizedTarget(
    id: int32, hash: Text, deps: seq<int32>, ruleType: int32, tags: seq<int32>, root: bool, external: bool,
    attributes: map<int32, int32>)

  datatype Metadata = Metadata(
    targetNames: map<int32, Text>, ruleTypes: map<int32, Text>, tags: map<int32, Text>, attributeNames: map<int32,
    Text>,
    attributeValues: map<int32, Text>, fileHashes: map<Text, Text>)

  const NO_METADATA := Metadata(map[], map[], map[], map[], map[], map[])
}
