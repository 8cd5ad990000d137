/** Conversion of the v1beta1 `Addressable` duck type to and from its v1 shape.
    Both shapes hold one optional URL; the conversion writes through a pointer
    to the target and fails with an error for any shape other than v1. */
module Addressables {
  import opened Wrappers

  /** A parsed URL. The conversion deep-copies it whole, so its fields are
      carried as values. */
  datatype URL = URL(scheme: string, host: string, path: string)

  /** The v1beta1 field values. */
  datatype AddressableValue = AddressableValue(url: Option<URL>)
  /** The v1 field values. */
  datatype AddressableV1Value = AddressableV1Value(url: Option<URL>)

  /** The field mapping up to v1: the URL is copied, and absence stays absence. */
  function ToV1(a: AddressableValue): (r: AddressableV1Value)
    ensures r.url == a.url
    ensures r.url.Some? <==> a.url.Some?
  {
    AddressableV1Value(a.url)
  }

  /** The field mapping down from v1. */
  function FromV1(v: AddressableV1Value): (r: AddressableValue)
    ensures r.url == v.url
    ensures r.url.Some? <==> v.url.Some?
  {
    AddressableValue(v.url)
  }

  /** Up then down reproduces the original, with or without a URL. */
  lemma RoundTripFromV1Beta1(a: AddressableValue)
    ensures FromV1(ToV1(a)) == a
  {
  }

  /** Down then up reproduces the v1 value: the mapping is a bijection. */
  lemma RoundTripFromV1(v: AddressableV1Value)
    ensures ToV1(FromV1(v)) == v
  {
  }

  /** The error of a conversion to or from a shape this type does not know. */
  datatype ConversionError = UnknownVersion

  class AddressableV1 {
    var url: Option<URL>

    constructor (url: Option<URL>)
      ensures this.url == url
    {
      this.url := url;
    }

    function Value(): AddressableV1Value
      reads this
    {
      AddressableV1Value(url)
    }
  }

  /** A conversion target or source (`apis.Convertible`): one of the two shapes. */
  datatype Convertible = V1(v1: AddressableV1) | V1Beta1(v1beta1: Addressable) {
    /** The objects a conversion into this target may write. */
    function Objects(): set<object> {
      match this
      case V1(o) => {o}
      case V1Beta1(o) => {o}
    }
  }

  class Addressable {
    var url: Option<URL>

    constructor (url: Option<URL>)
      ensures this.url == url
    {
      this.url := url;
    }

    function Value(): AddressableValue
      reads this
    {
      AddressableValue(url)
    }

    /** `ConvertTo`: write this value into a v1 target; any other target is
        an error and is left untouched. */
    method ConvertTo(to: Convertible) returns (err: Option<ConversionError>)
      modifies to.Objects()
      ensures to.V1? ==> err == None && to.v1.Value() == ToV1(old(Value()))
      ensures to.V1Beta1? ==> err == Some(UnknownVersion) && unchanged(to.v1beta1)
    {
      match to
      case V1(sink) =>
        sink.url := url;
        err := None;
      case V1Beta1(_) =>
        err := Some(UnknownVersion);
    }

    /** `ConvertFrom`: read this value from a v1 source; any other source is
        an error and this object is left untouched. */
    method ConvertFrom(from: Convertible) returns (err: Option<ConversionError>)
      modifies this
      ensures from.V1? ==> err == None && Value() == FromV1(old(from.v1.Value()))
      ensures from.V1Beta1? ==> err == Some(UnknownVersion) && unchanged(this)
    {
      match from
      case V1(source) =>
        url := source.url;
        err := None;
      case V1Beta1(_) =>
        err := Some(UnknownVersion);
    }
  }

  /** Converting up into an empty v1 object and back into an empty v1beta1
      object succeeds both ways and reproduces the original URL, or its
      absence. */
  method RoundTripThroughV1(url: Option<URL>) returns (errUp: Option<ConversionError>, errDown: Option<ConversionError>, got: Option<URL>)
    ensures errUp.None? && errDown.None?
    ensures got == url
  {
    var addr := new Addressable(url);
    var conv := new AddressableV1(None);
    errUp := addr.ConvertTo(V1(conv));
    var back := new Addressable(None);
    errDown := back.ConvertFrom(V1(conv));
    got := back.url;
  }

  /** Converting to, and then from, another v1beta1 object fails both ways, with
      or without a URL, and leaves the receiving object empty. */
  method SameVersionRejected(url: Option<URL>) returns (errUp: Option<ConversionError>, errDown: Option<ConversionError>, got: Option<URL>)
    ensures errUp.Some? && errDown.Some?
    ensures got == None
  {
    var addr := new Addressable(url);
    var conv := new Addressable(None);
    errUp := addr.ConvertTo(V1Beta1(conv));
    var back := new Addressable(None);
    errDown := back.ConvertFrom(V1Beta1(conv));
    got := back.url;
  }
}
