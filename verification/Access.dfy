/**
  access/access.c and the public wrapper of access/path.c.
 */
module Access {
  import opened Types
  import opened Validate
  import opened Path

  /** `struct_meta_field_find_attribute`. */
  method FieldFindAttribute(f: Field, key: string) returns (ret: Status, attribute: Option<Attribute>)
    ensures attribute == FindAttribute(f.attributes, key)
    ensures ret == if attribute.Some? then Ok else NotFound
  {
    for i := 0 to |f.attributes|
      invariant FindAttribute(f.attributes, key) == FindAttribute(f.attributes[i..], key)
    {
      if f.attributes[i].key == key {
        return Ok, Some(f.attributes[i]);
      }
      assert f.attributes[i..][1..] == f.attributes[i + 1..];
    }
    return NotFound, None;
  }

  /** In a validated field the attribute found is the only one with its key, and none is missed. */
  lemma {:induction false} FoundAttributeIsUnique(attributes: seq<Attribute>, key: string)
    requires DistinctKeys(attributes)
    ensures forall i :: 0 <= i < |attributes| && attributes[i].key == key ==>
              FindAttribute(attributes, key) == Some(attributes[i])
    ensures FindAttribute(attributes, key).Some? ==> FindAttribute(attributes, key).value in attributes
  {
    if attributes != [] {
      assert DistinctKeys(attributes[1..]);
      FoundAttributeIsUnique(attributes[1..], key);
      forall i | 0 <= i < |attributes| && attributes[i].key == key
        ensures FindAttribute(attributes, key) == Some(attributes[i]) {
        if i > 0 {
          assert attributes[1..][i - 1] == attributes[i];
        }
      }
    }
  }

  /** `struct_meta_field_get_element`: for a validated field the element lies inside an instance of its parent. */
  method FieldGetElement(f: Field, ghost size: Size, instance: nat, index: Size)
      returns (ret: Status, element: Option<nat>)
    ensures ret == if index >= f.elementCount then OutOfRange else Ok
    ensures element == if ret == Ok then Some(instance + ElementOffset(f, index)) else None
    ensures ret == Ok && FieldLayout(f, size) ==>
              instance <= element.value && element.value + ElementLength(f) <= instance + size
  {
    if index >= f.elementCount {
      return OutOfRange, None;
    }
    if FieldLayout(f, size) {
      ElementInside(f, size, index);
    }
    return Ok, Some(instance + f.offset + index * f.elementSize);
  }

  /**
    `struct_meta_path_resolve`: arguments, then the descriptor, then the path.
    NULL arguments are `None`; on every failure both outputs are NULL.
   */
  method PathResolve(g: Graph, available: nat, descriptor: Option<nat>, instance: Option<nat>, path: Option<string>)
      returns (ret: Status, field: Option<Field>, value: Option<nat>)
    requires Closed(g) && (descriptor.Some? ==> descriptor.value < |g|)
    requires descriptor.Some? && instance.Some? ==> instance.value + g[descriptor.value].size <= SIZE_MAX + 1
    ensures ret != Ok ==> field.None? && value.None?
    ensures descriptor.None? || instance.None? || path.None? || path.value == "" ==> ret == InvalidArgument
    ensures ret == Ok ==>
              && descriptor.Some? && instance.Some? && path.Some? && Valid(g, descriptor.value)
              && field.Some? && value.Some?
              && ParseThenWalk(Tree(g, descriptor.value), instance.value, path.value, 0)
                == Some(Target(field.value, value.value))
    ensures descriptor.Some? && instance.Some? && path.Some? && path.value != "" ==>
              || (ret == OutOfMemory && MemoryShort(g, available))
              || if !Valid(g, descriptor.value) then ret == CorruptDescriptor
                 else match Resolve(Tree(g, descriptor.value), instance.value, path.value, 0)
                      case Failed(status) => ret == status
                      case Resolved(_) => ret == Ok
  {
    if descriptor.None? || instance.None? || path.None? || path.value == "" {
      return InvalidArgument, None, None;
    }
    ret := DescriptorValidate(g, descriptor, available);
    if ret != Ok {
      return ret, None, None;
    }
    var d := Tree(g, descriptor.value);
    var target;
    ret, target := ResolvePath(d, instance.value, path.value);
    ResolveIsParseThenWalk(d, instance.value, path.value, 0);
    if target.None? {
      return ret, None, None;
    }
    return Ok, Some(target.value.field), Some(target.value.address);
  }
}
