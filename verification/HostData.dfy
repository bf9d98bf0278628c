/** Payloads exchanged with the host. Text and JSON are held as their bytes. */
module HostData {
  import opened Bytes

  type Text = seq<Byte>

  /** The bit pattern of a double. */
  type Float64 = n: nat | n < 0x1_0000_0000_0000_0000

  /** `Missing` is no payload at all, `Unset` one without data, `Other` any kind without a conversion of its own. */
  datatype TypedData =
    | Missing
    | Unset
    | TextData(text: Text)
    | JsonData(json: Text)
    | BytesData(bytes: seq<Byte>)
    | IntData(int64: int)
    | DoubleData(double: Float64)
    | BytesList(byteItems: seq<seq<Byte>>)
    | TextList(textItems: seq<Text>)
    | DoubleList(doubleItems: seq<Float64>)
    | IntList(intItems: seq<int>)
    | Other

  predicate IsCollection(data: TypedData) {
    data.BytesList? || data.TextList? || data.DoubleList? || data.IntList?
  }

  function Count(data: TypedData): nat {
    match data
    case BytesList(items) => |items|
    case TextList(items) => |items|
    case DoubleList(items) => |items|
    case IntList(items) => |items|
    case _ => 0
  }

  /** Item `i` of a collection as a payload of its own. */
  function ItemAt(data: TypedData, i: nat): (item: TypedData)
    requires i < Count(data)
    ensures !IsCollection(item) && !item.Missing? && !item.Unset?
  {
    match data
    case BytesList(items) => BytesData(items[i])
    case TextList(items) => TextData(items[i])
    case DoubleList(items) => DoubleData(items[i])
    case IntList(items) => IntData(items[i])
  }

  /** All items of a collection, in order. */
  function CollectionValues(data: TypedData): (values: Option<seq<TypedData>>)
    ensures values.Some? <==> IsCollection(data)
    ensures values.Some? ==> |values.value| == Count(data)
    ensures values.Some? ==> forall i: nat :: i < Count(data) ==> values.value[i] == ItemAt(data, i)
  {
    match data
    case BytesList(items) => Some(seq(|items|, i requires 0 <= i < |items| => BytesData(items[i])))
    case TextList(items) => Some(seq(|items|, i requires 0 <= i < |items| => TextData(items[i])))
    case DoubleList(items) => Some(seq(|items|, i requires 0 <= i < |items| => DoubleData(items[i])))
    case IntList(items) => Some(seq(|items|, i requires 0 <= i < |items| => IntData(items[i])))
    case _ => None
  }

  /** Nothing of a collection is lost: kind, number, order and content can be read off the elements. */
  lemma ElementsDetermine(a: TypedData, b: TypedData)
    requires IsCollection(a) && IsCollection(b) && Count(a) > 0
    requires CollectionValues(a) == CollectionValues(b)
    ensures a == b
  {
    var xs, ys := CollectionValues(a).value, CollectionValues(b).value;
    assert xs[0] == ys[0];
    match a
    case BytesList(items) =>
      forall i | 0 <= i < |items| ensures items[i] == b.byteItems[i] { assert xs[i] == ys[i]; }
    case TextList(items) =>
      forall i | 0 <= i < |items| ensures items[i] == b.textItems[i] { assert xs[i] == ys[i]; }
    case DoubleList(items) =>
      forall i | 0 <= i < |items| ensures items[i] == b.doubleItems[i] { assert xs[i] == ys[i]; }
    case IntList(items) =>
      forall i | 0 <= i < |items| ensures items[i] == b.intItems[i] { assert xs[i] == ys[i]; }
  }
}
