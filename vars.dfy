/**
 * The names of the template variables a field generator fills in and its
 * printer substitutes into `$name$` placeholders.
 */
module Vars {
  datatype Key =
    | Classname | Name | CapitalizedName | ListName | Number | Type
    | StorageType | StorageAttribute | Default | CapitalizedType | Tag | TagSize
    | ArrayValueType | ArrayValueTypeName | ArrayValueTypeNameCap | FixedSize
    | GroupOrMessage

  /** How a key is spelled between the dollar signs of a template. */
  function Spelling(k: Key): string
  {
    match k
    case Classname => "classname"
    case Name => "name"
    case CapitalizedName => "capitalized_name"
    case ListName => "list_name"
    case Number => "number"
    case Type => "type"
    case StorageType => "storage_type"
    case StorageAttribute => "storage_attribute"
    case Default => "default"
    case CapitalizedType => "capitalized_type"
    case Tag => "tag"
    case TagSize => "tag_size"
    case ArrayValueType => "array_value_type"
    case ArrayValueTypeName => "array_value_type_name"
    case ArrayValueTypeNameCap => "array_value_type_name_cap"
    case FixedSize => "fixed_size"
    case GroupOrMessage => "group_or_message"
  }

  /** Two keys are never spelled alike, so a map over keys is a map over the template's names. */
  lemma SpellingInjective(a: Key, b: Key)
    requires Spelling(a) == Spelling(b)
    ensures a == b
  {
    match a
    case Classname => assert Spelling(b)[..2] == "cl";
    case Name => assert |Spelling(b)| == 4 && Spelling(b)[0] == 'n';
    case CapitalizedName => assert Spelling(b)[..12] == "capitalized_" && Spelling(b)[12] == 'n';
    case ListName => assert Spelling(b)[0] == 'l';
    case Number => assert Spelling(b)[..2] == "nu";
    case Type => assert |Spelling(b)| == 4 && Spelling(b)[0] == 't';
    case StorageType => assert Spelling(b)[..9] == "storage_t";
    case StorageAttribute => assert Spelling(b)[..9] == "storage_a";
    case Default => assert Spelling(b)[0] == 'd';
    case CapitalizedType => assert Spelling(b)[..12] == "capitalized_" && Spelling(b)[12] == 't';
    case Tag => assert |Spelling(b)| == 3 && Spelling(b)[0] == 't';
    case TagSize => assert |Spelling(b)| == 8 && Spelling(b)[..4] == "tag_";
    case ArrayValueType => assert |Spelling(b)| == 16;
    case ArrayValueTypeName => assert |Spelling(b)| == 21;
    case ArrayValueTypeNameCap => assert |Spelling(b)| == 25;
    case FixedSize => assert Spelling(b)[0] == 'f';
    case GroupOrMessage => assert Spelling(b)[0] == 'g';
  }
}
