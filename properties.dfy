/**
 * readProperties: collects `property` elements among a node's children into
 * a Properties map, descending into nested `properties` elements.
 */
module PropertyReader {
  import opened Results
  import opened Dom
  import opened JavaText
  import opened Tiled

  /**
   * The value a `property` element carries: its `value` attribute, else the
   * trimmed character data of its first child, else nothing.
   */
  function PropertyValue(n: Node): (r: Option<string>)
    ensures AttributeValue(n, "value").Some? ==> r == AttributeValue(n, "value")
    ensures AttributeValue(n, "value").None? && FirstChild(n).Some? && FirstChild(n).value.Text? ==>
      r == Some(Trim(FirstChild(n).value.text))
    ensures AttributeValue(n, "value").None? && (FirstChild(n).None? || FirstChild(n).value.Element?) ==>
      r.None?
  {
    match AttributeValue(n, "value")
    case Some(v) => Some(v)
    case None =>
      match FirstChild(n)
      case None => None
      case Some(g) =>
        match NodeValue(g)
        case None => None
        case Some(t) => Some(Trim(t))
  }

  /**
   * The properties after reading the children `cs` into `props`. A property
   * with a value but no `name` is stored under a null key, which
   * java.util.Properties rejects by throwing (a null dereference).
   */
  function PropertiesOf(cs: seq<Node>, props: Properties): Result<Properties>
  {
    if cs == [] then Ok(props)
    else
      var acc :- PropertiesOf(cs[..|cs| - 1], props);
      PropertyStep(cs[|cs| - 1], acc)
  }

  function PropertyStep(n: Node, props: Properties): Result<Properties>
  {
    if EqualsIgnoreCase("property", NodeName(n)) then
      match PropertyValue(n)
      case None => Ok(props)
      case Some(v) =>
        match AttributeValue(n, "name")
        case None => Err(NullReference)
        case Some(k) => Ok(props[k := v])
    else if NodeName(n) == "properties" then
      PropertiesOf(Children(n), props)
    else Ok(props)
  }

  method ReadProperties(children: seq<Node>, props: Properties) returns (r: Result<Properties>)
    ensures r == PropertiesOf(children, props)
    decreases children
  {
    var acc := props;
    var i := 0;
    while i < |children|
      invariant 0 <= i <= |children|
      invariant PropertiesOf(children[..i], props) == Ok(acc)
    {
      var child := children[i];
      assert children[..i + 1][..i] == children[..i];
      if EqualsIgnoreCase("property", NodeName(child)) {
        var key := AttributeValue(child, "name");
        var value := AttributeValue(child, "value");
        if value.None? {
          var grandChild := FirstChild(child);
          if grandChild.Some? {
            value := NodeValue(grandChild.value);
            if value.Some? {
              value := Some(Trim(value.value));
            }
          }
        }
        if value.Some? {
          if key.None? {
            PropertiesErrStops(children, i + 1, props);
            return Err(NullReference);
          }
          acc := acc[key.value := value.value];
        }
      } else if NodeName(child) == "properties" {
        var nested := ReadProperties(Children(child), acc);
        if nested.Err? {
          PropertiesErrStops(children, i + 1, props);
          return nested;
        }
        acc := nested.value;
      }
      i := i + 1;
    }
    assert children[..i] == children;
    r := Ok(acc);
  }

  /** Once a child has thrown, the remaining children are not read. */
  lemma {:induction false} PropertiesErrStops(cs: seq<Node>, i: nat, props: Properties)
    requires i <= |cs| && PropertiesOf(cs[..i], props).Err?
    ensures PropertiesOf(cs, props) == PropertiesOf(cs[..i], props)
    decreases |cs| - i
  {
    if i < |cs| {
      assert cs[..i + 1][..i] == cs[..i];
      PropertiesErrStops(cs, i + 1, props);
    } else {
      assert cs[..i] == cs;
    }
  }

  /** A `property` element with a `value` attribute stores that value under its name. */
  lemma ValueAttributeWins(n: Node, props: Properties, k: string, v: string)
    requires n.Element? && EqualsIgnoreCase("property", n.tag)
    requires AttributeValue(n, "name") == Some(k) && AttributeValue(n, "value") == Some(v)
    ensures PropertyStep(n, props) == Ok(props[k := v])
  {
  }

  /** Without a `value` attribute the trimmed text of the first child is stored. */
  lemma TextValueFallback(n: Node, props: Properties, k: string, t: string)
    requires n.Element? && EqualsIgnoreCase("property", n.tag)
    requires AttributeValue(n, "name") == Some(k) && AttributeValue(n, "value").None?
    requires n.children != [] && n.children[0] == Text(t)
    ensures PropertyStep(n, props) == Ok(props[k := Trim(t)])
  {
  }

  /** With neither a `value` attribute nor character data the map is left as it was. */
  lemma NoValueNoChange(n: Node, props: Properties)
    requires n.Element? && EqualsIgnoreCase("property", n.tag)
    requires AttributeValue(n, "value").None? && (n.children == [] || n.children[0].Element?)
    ensures PropertyStep(n, props) == Ok(props)
  {
  }

  /** Reading `a + b` is reading `a`, then reading `b` into the result. */
  lemma {:induction false} PropertiesAppend(a: seq<Node>, b: seq<Node>, props: Properties)
    ensures PropertiesOf(a + b, props) ==
      match PropertiesOf(a, props)
      case Err(e) => Err(e)
      case Ok(q) => PropertiesOf(b, q)
  {
    if b == [] {
      assert a + b == a;
    } else {
      assert (a + b)[..|a + b| - 1] == a + b[..|b| - 1];
      PropertiesAppend(a, b[..|b| - 1], props);
    }
  }

  /** A later property replaces whatever an earlier one stored under the same name. */
  lemma LastWriteWins(cs: seq<Node>, n: Node, props: Properties, k: string, v: string)
    requires PropertiesOf(cs, props).Ok?
    requires n.Element? && EqualsIgnoreCase("property", n.tag)
    requires AttributeValue(n, "name") == Some(k) && PropertyValue(n) == Some(v)
    ensures PropertiesOf(cs + [n], props).Ok?
    ensures PropertiesOf(cs + [n], props).value == PropertiesOf(cs, props).value[k := v]
  {
    assert (cs + [n])[..|cs|] == cs;
  }

  /** A property with a value but no name makes the whole read fail. */
  lemma NamelessPropertyThrows(cs: seq<Node>, n: Node, props: Properties)
    requires PropertiesOf(cs, props).Ok?
    requires n.Element? && EqualsIgnoreCase("property", n.tag)
    requires AttributeValue(n, "name").None? && PropertyValue(n).Some?
    ensures PropertiesOf(cs + [n], props) == Err(NullReference)
  {
    assert (cs + [n])[..|cs|] == cs;
  }

  /** Reading only adds or overwrites: no key present before is removed. */
  lemma {:induction false} PropertiesKeepKeys(cs: seq<Node>, props: Properties)
    requires PropertiesOf(cs, props).Ok?
    ensures props.Keys <= PropertiesOf(cs, props).value.Keys
    decreases cs
  {
    if cs != [] {
      var acc := PropertiesOf(cs[..|cs| - 1], props).value;
      PropertiesKeepKeys(cs[..|cs| - 1], props);
      StepKeepsKeys(cs[|cs| - 1], acc);
    }
  }

  lemma {:induction false} StepKeepsKeys(n: Node, props: Properties)
    requires PropertyStep(n, props).Ok?
    ensures props.Keys <= PropertyStep(n, props).value.Keys
    decreases n
  {
    if !EqualsIgnoreCase("property", NodeName(n)) && NodeName(n) == "properties" {
      PropertiesKeepKeys(Children(n), props);
    }
  }
}
