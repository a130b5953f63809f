// mc::datatypes::text_component::TextComponent (text_component.cpp): a chat
// component tree, its click and hover action names, its plain text, and its
// conversion to and from NBT. A component owns its children through
// unique_ptr, so it is a value here.
module TextComponents {
  import opened Wrappers
  import opened Ints
  import Codec
  import opened Nbt

  /** The bytes of an ASCII literal. */
  function Bytes(s: string): seq<byte>
  {
    seq(|s|, i requires 0 <= i < |s| => s[i] as int % 256)
  }

  /** Two literals that differ at one index below 256 give different bytes. */
  lemma Differ(s: string, t: string, i: nat)
    requires i < |s| && i < |t| && s[i] != t[i] && s[i] as int < 256 && t[i] as int < 256
    ensures Bytes(s) != Bytes(t)
  {
    assert Bytes(s)[i] != Bytes(t)[i];
  }

  datatype ClickAction = OpenUrl | RunCommand | SuggestCommand | ChangePage | CopyToClipboard

  datatype HoverAction = ShowText | ShowItem | ShowEntity

  datatype ClickEvent = ClickEvent(action: ClickAction, value: seq<byte>)

  /** A hover event holds either contents (a component) or a string value;
      the constructor with contents leaves value empty. */
  datatype HoverEvent = HoverEvent(action: HoverAction, contents: Option<Component>, value: seq<byte>)

  datatype Component = Component(
    text: Option<seq<byte>>,
    translate: Option<seq<byte>>,
    translateWith: seq<Component>,
    keybind: Option<seq<byte>>,
    scoreObjective: Option<seq<byte>>,
    scoreName: Option<seq<byte>>,
    selector: Option<seq<byte>>,
    color: Option<seq<byte>>,
    font: Option<seq<byte>>,
    bold: Option<bool>,
    italic: Option<bool>,
    underlined: Option<bool>,
    strikethrough: Option<bool>,
    obfuscated: Option<bool>,
    clickEvent: Option<ClickEvent>,
    hoverEvent: Option<HoverEvent>,
    extra: seq<Component>)

  /** TextComponent(): every field unset, no children. */
  function Empty(): Component
  {
    Component(None, None, [], None, None, None, None, None, None, None, None, None, None, None, None, None, [])
  }

  /** TextComponent::text(content). */
  function Text(s: seq<byte>): Component
  {
    Empty().(text := Some(s))
  }

  /** addExtra(component): the child appended after the others. */
  function AddExtra(c: Component, e: Component): Component
  {
    c.(extra := c.extra + [e])
  }

  // The action names

  function ClickActionName(a: ClickAction): (n: seq<byte>)
    ensures 8 <= |n| <= 17
  {
    match a
    case OpenUrl => Bytes("open_url")
    case RunCommand => Bytes("run_command")
    case SuggestCommand => Bytes("suggest_command")
    case ChangePage => Bytes("change_page")
    case CopyToClipboard => Bytes("copy_to_clipboard")
  }

  /** stringToClickAction: an unknown name is OpenUrl. */
  function ClickActionOf(s: seq<byte>): ClickAction
  {
    if s == Bytes("open_url") then OpenUrl
    else if s == Bytes("run_command") then RunCommand
    else if s == Bytes("suggest_command") then SuggestCommand
    else if s == Bytes("change_page") then ChangePage
    else if s == Bytes("copy_to_clipboard") then CopyToClipboard
    else OpenUrl
  }

  /** Every click action reads back from its name, and a name that does not
      read as OpenUrl is the name of the action it reads as. */
  lemma ClickActionRoundTrip(a: ClickAction, s: seq<byte>)
    ensures ClickActionOf(ClickActionName(a)) == a
    ensures ClickActionOf(s) != OpenUrl ==> ClickActionName(ClickActionOf(s)) == s
  {
    Differ("change_page", "run_command", 0);
  }

  function HoverActionName(a: HoverAction): (n: seq<byte>)
    ensures 9 <= |n| <= 11
  {
    match a
    case ShowText => Bytes("show_text")
    case ShowItem => Bytes("show_item")
    case ShowEntity => Bytes("show_entity")
  }

  /** stringToHoverAction: an unknown name is ShowText. */
  function HoverActionOf(s: seq<byte>): HoverAction
  {
    if s == Bytes("show_text") then ShowText
    else if s == Bytes("show_item") then ShowItem
    else if s == Bytes("show_entity") then ShowEntity
    else ShowText
  }

  /** Every hover action reads back from its name, and a name that does not
      read as ShowText is the name of the action it reads as. */
  lemma HoverActionRoundTrip(a: HoverAction, s: seq<byte>)
    ensures HoverActionOf(HoverActionName(a)) == a
    ensures HoverActionOf(s) != ShowText ==> HoverActionName(HoverActionOf(s)) == s
  {
    Differ("show_text", "show_item", 5);
  }

  // isSimple and getPlainText

  /** isSimple: text set, and no style, no events and no extras. */
  predicate IsSimple(c: Component)
  {
    c.text.Some? && c.color.None? && c.font.None? && c.bold.None? && c.italic.None?
    && c.underlined.None? && c.strikethrough.None? && c.obfuscated.None?
    && c.clickEvent.None? && c.hoverEvent.None? && c.extra == []
  }

  /** The first of text, translate, keybind, score name and selector that is set. */
  function Head(c: Component): seq<byte>
  {
    if c.text.Some? then c.text.value
    else if c.translate.Some? then c.translate.value
    else if c.keybind.Some? then c.keybind.value
    else if c.scoreName.Some? then c.scoreName.value
    else if c.selector.Some? then c.selector.value
    else []
  }

  /** getPlainText: the head, then the plain text of each extra in turn. */
  function PlainText(c: Component): seq<byte>
    decreases c, 1
  {
    Head(c) + PlainTexts(c.extra)
  }

  function PlainTexts(cs: seq<Component>): seq<byte>
    decreases cs, 0
  {
    if cs == [] then [] else PlainText(cs[0]) + PlainTexts(cs[1..])
  }

  lemma {:induction false} PlainTextsAppend(cs: seq<Component>, e: Component)
    ensures PlainTexts(cs + [e]) == PlainTexts(cs) + PlainText(e)
  {
    if cs == [] {
      assert [] + [e] == [e];
    } else {
      assert (cs + [e])[1..] == cs[1..] + [e];
      PlainTextsAppend(cs[1..], e);
    }
  }

  /** addExtra appends the child's plain text to the parent's, and a plain
      text component's plain text is its text. */
  lemma AddExtraPlainText(c: Component, e: Component, s: seq<byte>)
    ensures PlainText(AddExtra(c, e)) == PlainText(c) + PlainText(e)
    ensures PlainText(Text(s)) == s
  {
    PlainTextsAppend(c.extra, e);
  }

  // toNBT

  /** A setTag call that happens only when its field is set. */
  datatype Field = Field(name: seq<byte>, tag: Option<Tag>)

  /** The setTag calls on a fresh compound, in order. */
  function PutAll(es: seq<Entry>, fs: seq<Field>): seq<Entry>
    decreases |fs|
  {
    if fs == [] then es
    else PutAll(if fs[0].tag.Some? then Insert(es, fs[0].name, fs[0].tag.value) else es, fs[1..])
  }

  function Str(s: Option<seq<byte>>): Option<Tag>
  {
    if s.Some? then Some(StringTag(s.value)) else None
  }

  /** An NBTByte of 1 or 0. */
  function Flag(b: Option<bool>): Option<Tag>
  {
    if b.Some? then Some(ByteTag(if b.value then 1 else 0)) else None
  }

  /** The keys toNBT and fromNBT use. */
  const TEXT := Bytes("text")
  const TRANSLATE := Bytes("translate")
  const KEYBIND := Bytes("keybind")
  const SCORE := Bytes("score")
  const SELECTOR := Bytes("selector")
  const COLOR := Bytes("color")
  const FONT := Bytes("font")
  const BOLD := Bytes("bold")
  const ITALIC := Bytes("italic")
  const UNDERLINED := Bytes("underlined")
  const STRIKETHROUGH := Bytes("strikethrough")
  const OBFUSCATED := Bytes("obfuscated")
  const CLICK_EVENT := Bytes("clickEvent")
  const HOVER_EVENT := Bytes("hoverEvent")
  const EXTRA := Bytes("extra")
  const WITH := Bytes("with")
  const ACTION := Bytes("action")
  const VALUE := Bytes("value")
  const CONTENTS := Bytes("contents")

  function ClickNbt(e: Option<ClickEvent>): Option<Tag>
  {
    if e.None? then None
    else Some(CompoundTag(PutAll([], [Field(ACTION, Some(StringTag(ClickActionName(e.value.action)))),
                                      Field(VALUE, Some(StringTag(e.value.value)))])))
  }

  /** The hover compound, given the NBT of the contents when there are any. */
  function HoverNbt(e: Option<HoverEvent>, contents: Option<Tag>): Option<Tag>
  {
    if e.None? then None
    else Some(CompoundTag(PutAll([], [Field(ACTION, Some(StringTag(HoverActionName(e.value.action)))),
                                      if contents.Some? then Field(CONTENTS, contents)
                                      else Field(VALUE, Some(StringTag(e.value.value)))])))
  }

  /** The setTag calls of toNBT for a component that is not simple, given the
      NBT of its hover contents, of its extras and of its arguments; both lists
      are declared as lists of compounds. */
  function Fields(c: Component, contents: Option<Tag>, extra: seq<Tag>, with: seq<Tag>): seq<Field>
  {
    [Field(TEXT, Str(c.text)), Field(TRANSLATE, Str(c.translate)), Field(KEYBIND, Str(c.keybind)),
     Field(SCORE, Str(c.scoreName)), Field(SELECTOR, Str(c.selector)), Field(COLOR, Str(c.color)),
     Field(FONT, Str(c.font)), Field(BOLD, Flag(c.bold)), Field(ITALIC, Flag(c.italic)),
     Field(UNDERLINED, Flag(c.underlined)), Field(STRIKETHROUGH, Flag(c.strikethrough)),
     Field(OBFUSCATED, Flag(c.obfuscated)), Field(CLICK_EVENT, ClickNbt(c.clickEvent)),
     Field(HOVER_EVENT, HoverNbt(c.hoverEvent, contents)),
     Field(EXTRA, if c.extra == [] then None else Some(ListTag(COMPOUND, extra))),
     Field(WITH, if c.translateWith == [] then None else Some(ListTag(COMPOUND, with)))]
  }

  /** toNBT as written: a simple component is an NBTString of its text, any
      other a compound; extras and arguments are converted by toNBT itself, so
      a simple one becomes a String inside a list of compounds. */
  function ToNbt(c: Component): Tag
    decreases c
  {
    if IsSimple(c) then StringTag(c.text.value)
    else
      var contents := if c.hoverEvent.Some? && c.hoverEvent.value.contents.Some?
                      then Some(ToNbt(c.hoverEvent.value.contents.value)) else None;
      CompoundTag(PutAll([], Fields(c, contents,
        seq(|c.extra|, i requires 0 <= i < |c.extra| => ToNbt(c.extra[i])),
        seq(|c.translateWith|, i requires 0 <= i < |c.translateWith| => ToNbt(c.translateWith[i])))))
  }

  /** toNBT with every element of the two lists written as a compound, as
      their declared element type says: a simple child becomes the compound of
      its fields rather than a bare String. */
  function ToNbtWrapped(c: Component): Tag
    decreases c, 1
  {
    if IsSimple(c) then StringTag(c.text.value) else CompoundTag(WrappedFields(c))
  }

  /** The compound of a component under ToNbtWrapped, simple or not. */
  function WrappedFields(c: Component): seq<Entry>
    decreases c, 0
  {
    var contents := if c.hoverEvent.Some? && c.hoverEvent.value.contents.Some?
                    then Some(ToNbtWrapped(c.hoverEvent.value.contents.value)) else None;
    PutAll([], Fields(c, contents,
      WrappedList(c.extra), WrappedList(c.translateWith)))
  }

  /** A list of children, each as the compound of its fields. */
  function WrappedList(cs: seq<Component>): seq<Tag>
    decreases cs, 1
  {
    seq(|cs|, i requires 0 <= i < |cs| => CompoundTag(WrappedFields(cs[i])))
  }

  /** serialize(out) as written: the root tag's type byte, then its payload. */
  function Serialize(c: Component): (b: seq<byte>)
    ensures |b| > 0 && b[0] == if IsSimple(c) then STRING else COMPOUND
  {
    [TypeId(ToNbt(c))] + Payload(ToNbt(c))
  }

  /** serialize(out) over ToNbtWrapped. */
  function SerializeWrapped(c: Component): (b: seq<byte>)
    ensures |b| > 0 && b[0] == if IsSimple(c) then STRING else COMPOUND
  {
    [TypeId(ToNbtWrapped(c))] + Payload(ToNbtWrapped(c))
  }

  // fromNBT and deserialize

  /** dynamic_cast<const NBTString*>(getTag(name)): the string, when the tag is one. */
  function StrOf(t: Option<Tag>): Option<seq<byte>>
  {
    if t.Some? && t.value.StringTag? then Some(t.value.text) else None
  }

  /** dynamic_cast<const NBTByte*>(getTag(name)): a flag, set when the byte is not 0. */
  function FlagOf(t: Option<Tag>): Option<bool>
  {
    if t.Some? && t.value.ByteTag? then Some(t.value.b != 0) else None
  }

  /** fromNBT: a String is a text component; a compound gives back text,
      translate, keybind, color and the five style flags; anything else is an
      empty component. */
  function FromNbt(t: Tag): Component
  {
    match t
    case StringTag(s) => Text(s)
    case CompoundTag(es) =>
      Empty().(text := StrOf(Lookup(es, TEXT)), translate := StrOf(Lookup(es, TRANSLATE)),
               keybind := StrOf(Lookup(es, KEYBIND)), color := StrOf(Lookup(es, COLOR)),
               bold := FlagOf(Lookup(es, BOLD)), italic := FlagOf(Lookup(es, ITALIC)),
               underlined := FlagOf(Lookup(es, UNDERLINED)), strikethrough := FlagOf(Lookup(es, STRIKETHROUGH)),
               obfuscated := FlagOf(Lookup(es, OBFUSCATED)))
    case _ => Empty()
  }

  /** deserialize(in): a type byte, createTag, its read, then fromNBT. An
      unknown type reads nothing more and leaves the component as it was
      (None). */
  function DeserializeAt(data: seq<byte>, pos: nat): (r: Read<Option<Component>>)
    requires pos <= |data|
    ensures pos <= r.next <= |data|
  {
    var t := Codec.ByteAt(data, pos);
    if t.result.Err? then Read(Err(t.result.error), t.next)
    else
      var x := TagAt(t.result.value, data, t.next);
      if x.result.Err? then Read(Err(x.result.error), x.next)
      else if x.result.value.None? then Read(Ok(None), x.next)
      else Read(Ok(Some(FromNbt(x.result.value.value))), x.next)
  }

  // fromNBT(toNBT(c))

  /** What a lookup in the fields gives: the last set field of that name. */
  function LastSet(fs: seq<Field>, name: seq<byte>, found: Option<Tag>): Option<Tag>
    decreases |fs|
  {
    if fs == [] then found
    else LastSet(fs[1..], name, if fs[0].name == name && fs[0].tag.Some? then fs[0].tag else found)
  }

  lemma {:induction false} LookupPutAll(es: seq<Entry>, fs: seq<Field>, name: seq<byte>)
    ensures Lookup(PutAll(es, fs), name) == LastSet(fs, name, Lookup(es, name))
    decreases |fs|
  {
    if fs != [] {
      var next := if fs[0].tag.Some? then Insert(es, fs[0].name, fs[0].tag.value) else es;
      if fs[0].tag.Some? {
        LookupInsert(es, fs[0].name, fs[0].tag.value, name);
      }
      LookupPutAll(next, fs[1..], name);
    }
  }

  /** The keys of toNBT's setTag calls, in order. */
  const KEYS: seq<seq<byte>> := [TEXT, TRANSLATE, KEYBIND, SCORE, SELECTOR, COLOR, FONT, BOLD, ITALIC,
                                 UNDERLINED, STRIKETHROUGH, OBFUSCATED, CLICK_EVENT, HOVER_EVENT, EXTRA, WITH]

  /** The length and the first byte of each key, which tell the keys apart. */
  lemma KeyHeads()
    ensures |TEXT| == 4 && TEXT[0] == 't' as int
    ensures |TRANSLATE| == 9 && TRANSLATE[0] == 't' as int
    ensures |KEYBIND| == 7 && KEYBIND[0] == 'k' as int
    ensures |SCORE| == 5 && SCORE[0] == 's' as int
    ensures |SELECTOR| == 8 && SELECTOR[0] == 's' as int
    ensures |COLOR| == 5 && COLOR[0] == 'c' as int
    ensures |FONT| == 4 && FONT[0] == 'f' as int
    ensures |BOLD| == 4 && BOLD[0] == 'b' as int
    ensures |ITALIC| == 6 && ITALIC[0] == 'i' as int
    ensures |UNDERLINED| == 10 && UNDERLINED[0] == 'u' as int
    ensures |STRIKETHROUGH| == 13 && STRIKETHROUGH[0] == 's' as int
    ensures |OBFUSCATED| == 10 && OBFUSCATED[0] == 'o' as int
    ensures |CLICK_EVENT| == 10 && CLICK_EVENT[0] == 'c' as int
    ensures |HOVER_EVENT| == 10 && HOVER_EVENT[0] == 'h' as int
    ensures |EXTRA| == 5 && EXTRA[0] == 'e' as int
    ensures |WITH| == 4 && WITH[0] == 'w' as int
  {
  }

  /** No key of toNBT is used twice. */
  lemma KeysDistinct()
    ensures forall i, j :: 0 <= i < j < |KEYS| ==> KEYS[i] != KEYS[j]
  {
    KeyHeads();
  }

  lemma FieldNames(c: Component, contents: Option<Tag>, extra: seq<Tag>, with: seq<Tag>)
    ensures var fs := Fields(c, contents, extra, with);
            |fs| == |KEYS| && forall j :: 0 <= j < |fs| ==> fs[j].name == KEYS[j]
  {
  }

  /** A field found once among the fields is what the lookup gives. */
  lemma {:induction false} LastSetOnce(fs: seq<Field>, i: nat, name: seq<byte>, found: Option<Tag>)
    requires i < |fs| && fs[i].name == name
    requires forall j :: 0 <= j < |fs| && j != i ==> fs[j].name != name
    ensures LastSet(fs, name, found) == if fs[i].tag.Some? then fs[i].tag else found
    decreases |fs|
  {
    if i == 0 {
      LastSetMissing(fs[1..], name, if fs[0].tag.Some? then fs[0].tag else found);
    } else {
      LastSetOnce(fs[1..], i - 1, name, found);
    }
  }

  lemma {:induction false} LastSetMissing(fs: seq<Field>, name: seq<byte>, found: Option<Tag>)
    requires forall j :: 0 <= j < |fs| ==> fs[j].name != name
    ensures LastSet(fs, name, found) == found
    decreases |fs|
  {
    if fs != [] {
      LastSetMissing(fs[1..], name, found);
    }
  }

  /** The value toNBT stores under the i-th of its keys. */
  lemma FieldLookup(fs: seq<Field>, i: nat)
    requires |fs| == |KEYS| && i < |fs| && forall j :: 0 <= j < |fs| ==> fs[j].name == KEYS[j]
    ensures Lookup(PutAll([], fs), KEYS[i]) == fs[i].tag
  {
    KeysDistinct();
    LookupPutAll([], fs, KEYS[i]);
    LastSetOnce(fs, i, KEYS[i], None);
  }

  /** fromNBT of a compound toNBT builds keeps text, translate, keybind, color
      and the five style flags, whatever the children became. */
  lemma FromFields(c: Component, contents: Option<Tag>, extra: seq<Tag>, with: seq<Tag>)
    ensures var d := FromNbt(CompoundTag(PutAll([], Fields(c, contents, extra, with))));
            d == Empty().(text := c.text, translate := c.translate, keybind := c.keybind, color := c.color,
                          bold := c.bold, italic := c.italic, underlined := c.underlined,
                          strikethrough := c.strikethrough, obfuscated := c.obfuscated)
  {
    var es := PutAll([], Fields(c, contents, extra, with));
    StringFields(c, contents, extra, with);
    FlagFields(c, contents, extra, with);
    FromLookups(es, c);
  }

  /** The four strings fromNBT reads back from the compound of toNBT. */
  lemma StringFields(c: Component, contents: Option<Tag>, extra: seq<Tag>, with: seq<Tag>)
    ensures var es := PutAll([], Fields(c, contents, extra, with));
            Lookup(es, TEXT) == Str(c.text) && Lookup(es, TRANSLATE) == Str(c.translate) &&
            Lookup(es, KEYBIND) == Str(c.keybind) && Lookup(es, COLOR) == Str(c.color)
  {
    var fs := Fields(c, contents, extra, with);
    FieldNames(c, contents, extra, with);
    FieldLookup(fs, 0);
    FieldLookup(fs, 1);
    FieldLookup(fs, 2);
    FieldLookup(fs, 5);
  }

  /** The five style flags fromNBT reads back from the compound of toNBT. */
  lemma FlagFields(c: Component, contents: Option<Tag>, extra: seq<Tag>, with: seq<Tag>)
    ensures var es := PutAll([], Fields(c, contents, extra, with));
            Lookup(es, BOLD) == Flag(c.bold) && Lookup(es, ITALIC) == Flag(c.italic) &&
            Lookup(es, UNDERLINED) == Flag(c.underlined) &&
            Lookup(es, STRIKETHROUGH) == Flag(c.strikethrough) && Lookup(es, OBFUSCATED) == Flag(c.obfuscated)
  {
    var fs := Fields(c, contents, extra, with);
    FieldNames(c, contents, extra, with);
    FieldLookup(fs, 7);
    FieldLookup(fs, 8);
    FieldLookup(fs, 9);
    FieldLookup(fs, 10);
    FieldLookup(fs, 11);
  }

  lemma FromLookups(es: seq<Entry>, c: Component)
    requires Lookup(es, TEXT) == Str(c.text) && Lookup(es, TRANSLATE) == Str(c.translate)
    requires Lookup(es, KEYBIND) == Str(c.keybind) && Lookup(es, COLOR) == Str(c.color)
    requires Lookup(es, BOLD) == Flag(c.bold) && Lookup(es, ITALIC) == Flag(c.italic)
    requires Lookup(es, UNDERLINED) == Flag(c.underlined) && Lookup(es, STRIKETHROUGH) == Flag(c.strikethrough)
    requires Lookup(es, OBFUSCATED) == Flag(c.obfuscated)
    ensures FromNbt(CompoundTag(es)) == Empty().(text := c.text, translate := c.translate, keybind := c.keybind,
              color := c.color, bold := c.bold, italic := c.italic, underlined := c.underlined,
              strikethrough := c.strikethrough, obfuscated := c.obfuscated)
  {
  }

  /** fromNBT(toNBT(c)): a simple component comes back as its text alone; any
      other keeps text, translate, keybind, color and the five style flags and
      loses score, selector, font, the events, the extras and the arguments. */
  lemma FromToNbt(c: Component)
    ensures FromNbt(ToNbt(c)) == FromNbt(ToNbtWrapped(c))
    ensures FromNbt(ToNbt(c)) ==
            if IsSimple(c) then Text(c.text.value)
            else Empty().(text := c.text, translate := c.translate, keybind := c.keybind, color := c.color,
                          bold := c.bold, italic := c.italic, underlined := c.underlined,
                          strikethrough := c.strikethrough, obfuscated := c.obfuscated)
  {
    if !IsSimple(c) {
      var contents := if c.hoverEvent.Some? && c.hoverEvent.value.contents.Some?
                      then Some(ToNbt(c.hoverEvent.value.contents.value)) else None;
      FromFields(c, contents,
        seq(|c.extra|, i requires 0 <= i < |c.extra| => ToNbt(c.extra[i])),
        seq(|c.translateWith|, i requires 0 <= i < |c.translateWith| => ToNbt(c.translateWith[i])));
      var wrapped := if c.hoverEvent.Some? && c.hoverEvent.value.contents.Some?
                     then Some(ToNbtWrapped(c.hoverEvent.value.contents.value)) else None;
      FromFields(c, wrapped,
        WrappedList(c.extra), WrappedList(c.translateWith));
    }
  }

  // Reading a component back

  predicate Short(s: Option<seq<byte>>)
  {
    s.Some? ==> |s.value| < 0x8000_0000
  }

  /** Every string and list of the component and of its children within the
      Int32 and VarInt counts NBT writes. */
  predicate Fits(c: Component)
    decreases c
  {
    Short(c.text) && Short(c.translate) && Short(c.keybind) && Short(c.scoreName) && Short(c.selector)
    && Short(c.color) && Short(c.font) && |c.extra| < 0x8000_0000 && |c.translateWith| < 0x8000_0000
    && (c.clickEvent.Some? ==> |c.clickEvent.value.value| < 0x8000_0000)
    && (c.hoverEvent.Some? ==>
          |c.hoverEvent.value.value| < 0x8000_0000
          && (c.hoverEvent.value.contents.Some? ==> Fits(c.hoverEvent.value.contents.value)))
    && (forall i :: 0 <= i < |c.extra| ==> Fits(c.extra[i]))
    && (forall i :: 0 <= i < |c.translateWith| ==> Fits(c.translateWith[i]))
  }

  predicate AllWellFormed(es: seq<Entry>)
  {
    forall i :: 0 <= i < |es| ==> EntryWellFormed(es[i])
  }

  /** A field setTag can store and read back. */
  predicate FieldWellFormed(f: Field)
  {
    f.tag.Some? ==> EntryWellFormed(Entry(f.name, f.tag.value))
  }

  /** setTag only adds the new entry to those there were. */
  lemma {:induction false} InsertEntries(es: seq<Entry>, name: seq<byte>, t: Tag)
    ensures forall i :: 0 <= i < |Insert(es, name, t)| ==>
              Insert(es, name, t)[i] == Entry(name, t) || Insert(es, name, t)[i] in es
  {
    if es != [] && es[0].name != name && !Less(name, es[0].name) {
      InsertEntries(es[1..], name, t);
      forall i | 0 <= i < |Insert(es, name, t)|
        ensures Insert(es, name, t)[i] == Entry(name, t) || Insert(es, name, t)[i] in es
      {
        if i > 0 {
          assert Insert(es, name, t)[i] == Insert(es[1..], name, t)[i - 1];
        }
      }
    }
  }

  /** setTag calls of well-formed fields on a well-formed map keep it one. */
  lemma {:induction false} PutAllWellFormed(es: seq<Entry>, fs: seq<Field>)
    requires Ascending(es) && AllWellFormed(es)
    requires forall i :: 0 <= i < |fs| ==> FieldWellFormed(fs[i])
    ensures Ascending(PutAll(es, fs)) && AllWellFormed(PutAll(es, fs))
    decreases |fs|
  {
    if fs != [] {
      var next := es;
      if fs[0].tag.Some? {
        next := Insert(es, fs[0].name, fs[0].tag.value);
        InsertAscending(es, fs[0].name, fs[0].tag.value);
        InsertEntries(es, fs[0].name, fs[0].tag.value);
        assert FieldWellFormed(fs[0]);
      }
      assert forall i :: 0 <= i < |fs[1..]| ==> FieldWellFormed(fs[1..][i]) by {
        forall i | 0 <= i < |fs[1..]| ensures FieldWellFormed(fs[1..][i]) {
          assert fs[1..][i] == fs[i + 1];
        }
      }
      PutAllWellFormed(next, fs[1..]);
    }
  }

  /** A compound of well-formed fields. */
  lemma FieldsCompound(fs: seq<Field>)
    requires forall i :: 0 <= i < |fs| ==> FieldWellFormed(fs[i])
    ensures WellFormed(CompoundTag(PutAll([], fs)))
  {
    PutAllWellFormed([], fs);
  }

  /** The fields toNBT stores are well formed when the component fits and the
      NBT of its children is well formed. */
  lemma FieldsWellFormed(c: Component, contents: Option<Tag>, extra: seq<Tag>, with: seq<Tag>)
    requires Short(c.text) && Short(c.translate) && Short(c.keybind) && Short(c.scoreName) && Short(c.selector)
    requires Short(c.color) && Short(c.font) && |extra| < 0x8000_0000 && |with| < 0x8000_0000
    requires c.clickEvent.Some? ==> |c.clickEvent.value.value| < 0x8000_0000
    requires c.hoverEvent.Some? ==> |c.hoverEvent.value.value| < 0x8000_0000
    requires contents.Some? ==> !contents.value.EndTag? && WellFormed(contents.value)
    requires forall i :: 0 <= i < |extra| ==> TypeId(extra[i]) == COMPOUND && WellFormed(extra[i])
    requires forall i :: 0 <= i < |with| ==> TypeId(with[i]) == COMPOUND && WellFormed(with[i])
    ensures var fs := Fields(c, contents, extra, with); forall i :: 0 <= i < |fs| ==> FieldWellFormed(fs[i])
  {
    PlainFieldsWellFormed(c);
    NestedFieldsWellFormed(c, contents, extra, with);
    SixteenFields(c, contents, extra, with);
  }

  /** The event and list fields. */
  lemma NestedFieldsWellFormed(c: Component, contents: Option<Tag>, extra: seq<Tag>, with: seq<Tag>)
    requires |extra| < 0x8000_0000 && |with| < 0x8000_0000
    requires c.clickEvent.Some? ==> |c.clickEvent.value.value| < 0x8000_0000
    requires c.hoverEvent.Some? ==> |c.hoverEvent.value.value| < 0x8000_0000
    requires contents.Some? ==> !contents.value.EndTag? && WellFormed(contents.value)
    requires forall i :: 0 <= i < |extra| ==> TypeId(extra[i]) == COMPOUND && WellFormed(extra[i])
    requires forall i :: 0 <= i < |with| ==> TypeId(with[i]) == COMPOUND && WellFormed(with[i])
    ensures FieldWellFormed(Field(CLICK_EVENT, ClickNbt(c.clickEvent)))
    ensures FieldWellFormed(Field(HOVER_EVENT, HoverNbt(c.hoverEvent, contents)))
    ensures FieldWellFormed(Field(EXTRA, if c.extra == [] then None else Some(ListTag(COMPOUND, extra))))
    ensures FieldWellFormed(Field(WITH, if c.translateWith == [] then None else Some(ListTag(COMPOUND, with))))
  {
    ClickWellFormed(c.clickEvent);
    HoverWellFormed(c.hoverEvent, contents);
    assert |CLICK_EVENT| == 10 && |HOVER_EVENT| == 10;
    ListField(EXTRA, c.extra == [], extra);
    ListField(WITH, c.translateWith == [], with);
  }

  /** The string and flag fields. */
  lemma PlainFieldsWellFormed(c: Component)
    requires Short(c.text) && Short(c.translate) && Short(c.keybind) && Short(c.scoreName) && Short(c.selector)
    requires Short(c.color) && Short(c.font)
    ensures FieldWellFormed(Field(TEXT, Str(c.text))) && FieldWellFormed(Field(TRANSLATE, Str(c.translate)))
    ensures FieldWellFormed(Field(KEYBIND, Str(c.keybind))) && FieldWellFormed(Field(SCORE, Str(c.scoreName)))
    ensures FieldWellFormed(Field(SELECTOR, Str(c.selector))) && FieldWellFormed(Field(COLOR, Str(c.color)))
    ensures FieldWellFormed(Field(FONT, Str(c.font))) && FieldWellFormed(Field(BOLD, Flag(c.bold)))
    ensures FieldWellFormed(Field(ITALIC, Flag(c.italic))) && FieldWellFormed(Field(UNDERLINED, Flag(c.underlined)))
    ensures FieldWellFormed(Field(STRIKETHROUGH, Flag(c.strikethrough))) && FieldWellFormed(Field(OBFUSCATED, Flag(c.obfuscated)))
  {
    StrField(TEXT, c.text);
    StrField(TRANSLATE, c.translate);
    StrField(KEYBIND, c.keybind);
    StrField(SCORE, c.scoreName);
    StrField(SELECTOR, c.selector);
    StrField(COLOR, c.color);
    StrField(FONT, c.font);
    FlagField(BOLD, c.bold);
    FlagField(ITALIC, c.italic);
    FlagField(UNDERLINED, c.underlined);
    FlagField(STRIKETHROUGH, c.strikethrough);
    FlagField(OBFUSCATED, c.obfuscated);
  }

  lemma StrField(name: seq<byte>, s: Option<seq<byte>>)
    requires |name| < 0x8000_0000 && Short(s)
    ensures FieldWellFormed(Field(name, Str(s)))
  {
  }

  lemma FlagField(name: seq<byte>, b: Option<bool>)
    requires |name| < 0x8000_0000
    ensures FieldWellFormed(Field(name, Flag(b)))
  {
  }

  /** A list field of compounds, absent when the component's list is empty. */
  lemma ListField(name: seq<byte>, empty: bool, items: seq<Tag>)
    requires |name| < 0x8000_0000 && |items| < 0x8000_0000
    requires forall i :: 0 <= i < |items| ==> TypeId(items[i]) == COMPOUND && WellFormed(items[i])
    ensures FieldWellFormed(Field(name, if empty then None else Some(ListTag(COMPOUND, items))))
  {
  }

  lemma SixteenFields(c: Component, contents: Option<Tag>, extra: seq<Tag>, with: seq<Tag>)
    requires FieldWellFormed(Field(TEXT, Str(c.text))) && FieldWellFormed(Field(TRANSLATE, Str(c.translate)))
    requires FieldWellFormed(Field(KEYBIND, Str(c.keybind))) && FieldWellFormed(Field(SCORE, Str(c.scoreName)))
    requires FieldWellFormed(Field(SELECTOR, Str(c.selector))) && FieldWellFormed(Field(COLOR, Str(c.color)))
    requires FieldWellFormed(Field(FONT, Str(c.font))) && FieldWellFormed(Field(BOLD, Flag(c.bold)))
    requires FieldWellFormed(Field(ITALIC, Flag(c.italic))) && FieldWellFormed(Field(UNDERLINED, Flag(c.underlined)))
    requires FieldWellFormed(Field(STRIKETHROUGH, Flag(c.strikethrough))) && FieldWellFormed(Field(OBFUSCATED, Flag(c.obfuscated)))
    requires FieldWellFormed(Field(CLICK_EVENT, ClickNbt(c.clickEvent)))
    requires FieldWellFormed(Field(HOVER_EVENT, HoverNbt(c.hoverEvent, contents)))
    requires FieldWellFormed(Field(EXTRA, if c.extra == [] then None else Some(ListTag(COMPOUND, extra))))
    requires FieldWellFormed(Field(WITH, if c.translateWith == [] then None else Some(ListTag(COMPOUND, with))))
    ensures var fs := Fields(c, contents, extra, with); forall i :: 0 <= i < |fs| ==> FieldWellFormed(fs[i])
  {
  }

  lemma ClickWellFormed(e: Option<ClickEvent>)
    requires e.Some? ==> |e.value.value| < 0x8000_0000
    ensures ClickNbt(e).Some? ==> ClickNbt(e).value.CompoundTag? && WellFormed(ClickNbt(e).value)
  {
    if e.Some? {
      assert |ACTION| == 6 && |VALUE| == 5;
      PairCompound(Field(ACTION, Some(StringTag(ClickActionName(e.value.action)))),
                   Field(VALUE, Some(StringTag(e.value.value))));
    }
  }

  lemma HoverWellFormed(e: Option<HoverEvent>, contents: Option<Tag>)
    requires e.Some? ==> |e.value.value| < 0x8000_0000
    requires contents.Some? ==> !contents.value.EndTag? && WellFormed(contents.value)
    ensures HoverNbt(e, contents).Some? ==> HoverNbt(e, contents).value.CompoundTag? && WellFormed(HoverNbt(e, contents).value)
  {
    if e.Some? {
      assert |ACTION| == 6 && |VALUE| == 5 && |CONTENTS| == 8;
      PairCompound(Field(ACTION, Some(StringTag(HoverActionName(e.value.action)))),
                   if contents.Some? then Field(CONTENTS, contents)
                   else Field(VALUE, Some(StringTag(e.value.value))));
    }
  }

  /** The compound of an event's two fields. */
  lemma PairCompound(f0: Field, f1: Field)
    requires FieldWellFormed(f0) && FieldWellFormed(f1)
    ensures WellFormed(CompoundTag(PutAll([], [f0, f1])))
  {
    var fs := [f0, f1];
    assert forall i :: 0 <= i < |fs| ==> fs[i] == f0 || fs[i] == f1;
    FieldsCompound(fs);
  }

  /** With every list element a compound, the NBT of a component that fits is well formed. */
  lemma {:induction false} WrappedWellFormed(c: Component)
    requires Fits(c)
    ensures WellFormed(ToNbtWrapped(c)) && WellFormed(CompoundTag(WrappedFields(c)))
    decreases c
  {
    var contents := if c.hoverEvent.Some? && c.hoverEvent.value.contents.Some?
                    then Some(ToNbtWrapped(c.hoverEvent.value.contents.value)) else None;
    if contents.Some? {
      WrappedWellFormed(c.hoverEvent.value.contents.value);
    }
    ListWellFormed(c.extra);
    ListWellFormed(c.translateWith);
    FieldsWellFormed(c, contents, WrappedList(c.extra), WrappedList(c.translateWith));
    FieldsCompound(Fields(c, contents, WrappedList(c.extra), WrappedList(c.translateWith)));
  }

  lemma {:induction false} ListWellFormed(cs: seq<Component>)
    requires forall i :: 0 <= i < |cs| ==> Fits(cs[i])
    ensures var ts := WrappedList(cs);
            |ts| == |cs| && forall i :: 0 <= i < |ts| ==> TypeId(ts[i]) == COMPOUND && WellFormed(ts[i])
    decreases cs
  {
    forall i | 0 <= i < |cs| ensures WellFormed(CompoundTag(WrappedFields(cs[i]))) {
      WrappedWellFormed(cs[i]);
    }
  }

  /** deserialize(serialize(c)) over ToNbtWrapped gives fromNBT(toNBT(c)) and
      consumes exactly what serialize wrote, for every component that fits. */
  lemma SerializeRoundTrip(c: Component)
    requires Fits(c)
    ensures DeserializeAt(SerializeWrapped(c), 0) == Read(Ok(Some(FromNbt(ToNbtWrapped(c)))), |SerializeWrapped(c)|)
  {
    var t := ToNbtWrapped(c);
    var data := SerializeWrapped(c);
    WrappedWellFormed(c);
    Codec.HasAtStart(data, []);
    assert data + [] == data;
    TypeByteThen(TypeId(t), Payload(t), data, 0);
    TagRoundTrip(t, data, 1);
  }

  // A simple extra under toNBT as written

  /** A component whose only content is one simple extra, the text "a". */
  function PlainExtra(): Component
  {
    AddExtra(Empty(), Text([0x61]))
  }

  /** setTag is never called for an absent field. */
  lemma {:induction false} PutAllSkip(es: seq<Entry>, fs: seq<Field>)
    requires forall i :: 0 <= i < |fs| ==> fs[i].tag.None?
    ensures PutAll(es, fs) == es
    decreases |fs|
  {
    if fs != [] {
      assert forall i :: 0 <= i < |fs[1..]| ==> fs[1..][i] == fs[i + 1];
      PutAllSkip(es, fs[1..]);
    }
  }

  lemma {:induction false} PutAllAppend(es: seq<Entry>, a: seq<Field>, b: seq<Field>)
    ensures PutAll(es, a + b) == PutAll(PutAll(es, a), b)
    decreases |a|
  {
    if a == [] {
      assert a + b == b;
    } else {
      assert (a + b)[0] == a[0] && (a + b)[1..] == a[1..] + b;
      PutAllAppend(if a[0].tag.Some? then Insert(es, a[0].name, a[0].tag.value) else es, a[1..], b);
    }
  }

  /** toNBT of PlainExtra as written: the extras list, declared a list of
      compounds, holds the bare String "a". */
  lemma PlainExtraNbt()
    ensures ToNbt(PlainExtra()) == CompoundTag([Entry(EXTRA, ListTag(COMPOUND, [StringTag([0x61])]))])
  {
    var c := PlainExtra();
    var extra := seq(|c.extra|, i requires 0 <= i < |c.extra| => ToNbt(c.extra[i]));
    var with := seq(|c.translateWith|, i requires 0 <= i < |c.translateWith| => ToNbt(c.translateWith[i]));
    assert extra == [StringTag([0x61])];
    assert with == [];
    var fs := Fields(c, None, extra, with);
    var list := Field(EXTRA, Some(ListTag(COMPOUND, extra)));
    assert fs == fs[..14] + [list] + [fs[15]];
    PutAllSkip([], fs[..14]);
    PutAllAppend([], fs[..14] + [list], [fs[15]]);
    PutAllAppend([], fs[..14], [list]);
    PutAllSkip([Entry(EXTRA, ListTag(COMPOUND, extra))], [fs[15]]);
  }

  /** serialize(PlainExtra()) as written: the compound's type, the list's type
      byte and name, the element type Compound, the count 1, then the String
      "a" where a compound should be: its length byte 1 and its byte, and
      the End of the outer compound. */
  lemma PlainExtraBytes()
    ensures Serialize(PlainExtra()) == [COMPOUND] + ([LIST] + (NameBytes(EXTRA) + ListBytes()))
  {
    PlainExtraNbt();
    var list := ListTag(COMPOUND, [StringTag([0x61])]);
    var e := Entry(EXTRA, list);
    OneEntryPayload(e);
    ListPayload();
    SeqAssoc([LIST], NameBytes(EXTRA), Payload(list), [END]);
  }

  lemma OneEntryPayload(e: Entry)
    ensures Payload(CompoundTag([e])) == [TypeId(e.tag)] + NameBytes(e.name) + Payload(e.tag) + [END]
  {
    assert EntriesPayload([e]) == EntryBytes(e) + EntriesPayload([]);
  }

  lemma SeqAssoc(a: seq<byte>, b: seq<byte>, c: seq<byte>, d: seq<byte>)
    ensures a + b + c + d == a + (b + (c + d))
  {
  }

  lemma ListPayload()
    ensures Payload(ListTag(COMPOUND, [StringTag([0x61])])) + [END] == ListBytes()
  {
    VarInts.Leb128Unfold(1);
    assert NameBytes([0x61]) == [BYTE, 0x61];
    assert ItemsPayload([StringTag([0x61])]) == [BYTE, 0x61] + ItemsPayload([]);
    assert Count32(1) == 1;
  }

  /** The list of PlainExtra as written, then the End of the outer compound. */
  function ListBytes(): seq<byte>
  {
    [COMPOUND] + (Int32Bytes(1) + ([BYTE, 0x61] + [END]))
  }

  /** deserialize reads the element String back as a compound: its length
      byte 1 is taken for the type Byte, the letter 'a' (97) for the length
      of a name, and the one byte left cannot hold it. Over ToNbtWrapped the
      same component reads back. */
  lemma PlainExtraUnreadable()
    ensures DeserializeAt(Serialize(PlainExtra()), 0).result == Err(OutOfBounds)
    ensures DeserializeAt(SerializeWrapped(PlainExtra()), 0).result == Ok(Some(FromNbt(ToNbtWrapped(PlainExtra()))))
  {
    var data := Serialize(PlainExtra());
    PlainExtraBytes();
    VarInts.Leb128Unfold(5);
    assert |EXTRA| == 5;
    assert |data| == 16;
    Codec.HasAtStart(data, []);
    assert data + [] == data;
    TypeByteThen(COMPOUND, [LIST] + (NameBytes(EXTRA) + ListBytes()), data, 0);
    CompoundMisread(data);
    PlainExtraFits();
    SerializeRoundTrip(PlainExtra());
  }

  /** The outer compound: the list's type byte and name read, the list fails. */
  lemma CompoundMisread(data: seq<byte>)
    requires |data| == 16 && Codec.HasAt(data, 1, [LIST] + (NameBytes(EXTRA) + ListBytes()))
    ensures TagAt(COMPOUND, data, 1).result == Err(OutOfBounds)
  {
    VarInts.Leb128Unfold(5);
    assert |EXTRA| == 5;
    TypeByteThen(LIST, NameBytes(EXTRA) + ListBytes(), data, 1);
    var q := NameThen(EXTRA, ListBytes(), data, 2);
    assert q == 8;
    ListMisread(data);
    assert EntriesAt(data, 1, []).result == Err(OutOfBounds);
  }

  /** The list header reads, and its one element fails. */
  lemma ListMisread(data: seq<byte>)
    requires |data| == 16 && Codec.HasAt(data, 8, ListBytes())
    ensures ListAt(data, 8).result == Err(OutOfBounds)
  {
    TypeByteThen(COMPOUND, Int32Bytes(1) + ([BYTE, 0x61] + [END]), data, 8);
    assert Count32(1) == 1;
    var q := CountThen(1, [BYTE, 0x61] + [END], data, 9);
    ElementMisread(data);
    assert PayloadAt(COMPOUND, data, 13).result == Err(OutOfBounds);
    assert ItemsAt(COMPOUND, data, 13, 1, []).result == Err(OutOfBounds);
  }

  /** The bytes of the String "a" read as a compound entry of type Byte. */
  lemma ElementMisread(data: seq<byte>)
    requires |data| == 16 && Codec.HasAt(data, 13, [BYTE, 0x61] + [END])
    ensures EntriesAt(data, 13, []).result == Err(OutOfBounds)
  {
    assert [BYTE, 0x61] + [END] == [BYTE] + ([0x61] + [END]);
    TypeByteThen(BYTE, [0x61] + [END], data, 13);
    VarInts.Leb128Unfold(0x61);
    Codec.HasAtSplit(data, 14, VarInts.Encode(0x61), [END]);
    Codec.VarIntRoundTrip(0x61, data, 14);
    NameOf(data, 14, 0x61, 15);
  }

  lemma PlainExtraFits()
    ensures Fits(PlainExtra())
  {
    assert Fits(Text([0x61]));
  }
}
