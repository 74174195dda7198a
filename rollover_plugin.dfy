/** The plugin's operations on image elements: `bind` (with the mouseenter and
    mouseleave handlers it installs), `unbind`, `active` and `passive`, applied to
    one image. */
module RolloverPlugin {
  import opened Rollover

  datatype Option<T> = None | Some(value: T)

  /** One image element as the plugin sees it. */
  class Image {
    /** The `src` attribute. */
    var src: string
    /** Whether the image carries the no-rollover class, which mutes the hover handlers. */
    var noOver: bool
    /** Whether the image carries the active class. */
    var active: bool
    /** The rollover data captured, at bind time, by the hover handlers on the image's
        trigger; None when no handlers are bound. */
    var hover: Option<RolloverData>

    constructor (src: string, noOver: bool)
      ensures this.src == src && this.noOver == noOver && !active && hover == None
    {
      this.src := src;
      this.noOver := noOver;
      active := false;
      hover := None;
    }

    /** `bind`: reset an on image to its off name and bind the hover handlers to the data
        derived now. */
    method Bind(postfix: string)
      modifies this`src, this`hover
      ensures src == CreateRolloverData(old(src), postfix).offSrc
      ensures hover == Some(CreateRolloverData(old(src), postfix))
    {
      var data := CreateRolloverData(src, postfix);
      if !data.isOffImg {
        src := data.offSrc;
      }
      hover := Some(data);
    }

    /** The mouseenter handler: show the on image captured at bind time, unless muted. */
    method MouseEnter()
      modifies this`src
      ensures hover.Some? && !noOver ==> src == hover.value.onSrc
      ensures hover.None? || noOver ==> src == old(src)
    {
      if hover.Some? && !noOver {
        src := hover.value.onSrc;
      }
    }

    /** The mouseleave handler: show the off image captured at bind time, unless muted. */
    method MouseLeave()
      modifies this`src
      ensures hover.Some? && !noOver ==> src == hover.value.offSrc
      ensures hover.None? || noOver ==> src == old(src)
    {
      if hover.Some? && !noOver {
        src := hover.value.offSrc;
      }
    }

    /** `active`: mark the image active, unbind its hover handlers and show its on image. */
    method Active(postfix: string)
      modifies this`src, this`active, this`hover
      ensures src == CreateRolloverData(old(src), postfix).onSrc
      ensures active && hover == None
    {
      active := true;
      var data := CreateRolloverData(src, postfix);
      hover := None;
      if data.isOffImg {
        src := data.onSrc;
      }
    }

    /** `passive`: clear the active mark, unbind its hover handlers and show its off image. */
    method Passive(postfix: string)
      modifies this`src, this`active, this`hover
      ensures src == CreateRolloverData(old(src), postfix).offSrc
      ensures !active && hover == None
    {
      active := false;
      var data := CreateRolloverData(src, postfix);
      hover := None;
      if !data.isOffImg {
        src := data.offSrc;
      }
    }

    /** `unbind`: remove the hover handlers; the `src` stays as it is. */
    method Unbind()
      modifies this`hover
      ensures hover == None
    {
      hover := None;
    }
  }

  /** Binding an image and moving the pointer over it and away again: entering shows the
      on image (unless muted) and leaving shows the off image. */
  method HoverCycle(src: string, noOver: bool, postfix: string) returns (entered: string, left: string)
    ensures var d := CreateRolloverData(src, postfix);
      entered == (if noOver then d.offSrc else d.onSrc) && left == d.offSrc
  {
    var image := new Image(src, noOver);
    image.Bind(postfix);
    image.MouseEnter();
    entered := image.src;
    image.MouseLeave();
    left := image.src;
  }

  /** Activating an image and then making it passive again: for a plain off name the
      active image shows the postfixed name and the passive one the original name. */
  method ActiveThenPassive(src: string, postfix: string) returns (activeSrc: string, passiveSrc: string)
    ensures activeSrc == CreateRolloverData(src, postfix).onSrc
    ensures passiveSrc == CreateRolloverData(activeSrc, postfix).offSrc
    ensures PlainOffName(src, postfix) ==>
      activeSrc == src[..|src| - |Ext(src)|] + postfix + Ext(src) && passiveSrc == src
  {
    var image := new Image(src, false);
    image.Active(postfix);
    activeSrc := image.src;
    image.Passive(postfix);
    passiveSrc := image.src;
    if PlainOffName(src, postfix) {
      OffOnRoundTrip(src, postfix);
    }
  }
}
