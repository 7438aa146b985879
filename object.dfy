/**
 * Scene objects: an optional rigid body, an optional collider, a colour and a
 * name, put together by a builder that insists on a colour and names an
 * unnamed object "some_object".
 */
module Objects {
  import opened Wrappers
  import opened Colliders
  import opened RigidBodies

  /** An RGBA colour of the graphics library. */
  datatype Color = Color(r: real, g: real, b: real, a: real)

  /** A scene object; the body is the value of the body it owns. */
  datatype Object = Object(body: Option<BodyState>, collider: Option<Collider>, color: Color, name: string)

  const DefaultName: string := "some_object"

  const MissingColor: string := "Expected the user to pass a color"

  datatype ObjectBuilder = ObjectBuilder(
    body: Option<BodyState>,
    collider: Option<Collider>,
    color: Option<Color>,
    name: Option<string>)
  {
    function WithBody(body: BodyState): (r: ObjectBuilder)
      ensures r.body == Some(body) && r.(body := this.body) == this
    {
      this.(body := Some(body))
    }

    function WithCollider(collider: Collider): (r: ObjectBuilder)
      ensures r.collider == Some(collider) && r.(collider := this.collider) == this
    {
      this.(collider := Some(collider))
    }

    function WithColor(color: Color): (r: ObjectBuilder)
      ensures r.color == Some(color) && r.(color := this.color) == this
    {
      this.(color := Some(color))
    }

    function WithName(name: string): (r: ObjectBuilder)
      ensures r.name == Some(name) && r.(name := this.name) == this
    {
      this.(name := Some(name))
    }

    /**
     * The object, or the failure the source panics with when no colour was
     * given. The body and the collider pass through as they are, absent or not.
     */
    function Build(): (r: Result<Object, string>)
      ensures r.Failure? <==> color.None?
      ensures r.Failure? ==> r.error == MissingColor
      ensures r.Success? ==>
        && r.value.body == body && r.value.collider == collider
        && Some(r.value.color) == color
        && (name.Some? ==> r.value.name == name.value)
        && (name.None? ==> r.value.name == DefaultName)
    {
      match color
      case None => Failure(MissingColor)
      case Some(c) =>
        var n := if name.Some? then name.value else DefaultName;
        Success(Object(body, collider, c, n))
    }
  }

  /** A fresh builder, with nothing set. */
  function NewObjectBuilder(): (r: ObjectBuilder)
    ensures r.body.None? && r.collider.None? && r.color.None? && r.name.None?
  {
    ObjectBuilder(None, None, None, None)
  }

  /** Without a colour no object is built, whatever else is set. */
  lemma ColorIsRequired(b: BodyState, c: Collider, name: string)
    ensures NewObjectBuilder().Build().Failure?
    ensures NewObjectBuilder().WithBody(b).WithCollider(c).WithName(name).Build().Failure?
  {
  }

  /** A colour alone is enough: the object then has no body, no collider and the default name. */
  lemma ColorAloneSuffices(color: Color)
    ensures NewObjectBuilder().WithColor(color).Build() == Success(Object(None, None, color, DefaultName))
  {
  }

  /** A later call of the same setter overrides an earlier one. */
  lemma ObjectSettersLastWins(o: ObjectBuilder, b: BodyState, b': BodyState, c: Collider, c': Collider,
                              k: Color, k': Color, n: string, n': string)
    ensures o.WithBody(b).WithBody(b') == o.WithBody(b')
    ensures o.WithCollider(c).WithCollider(c') == o.WithCollider(c')
    ensures o.WithColor(k).WithColor(k') == o.WithColor(k')
    ensures o.WithName(n).WithName(n') == o.WithName(n')
  {
  }

  /** Setters of different fields commute, so the order of the calls does not matter. */
  lemma ObjectSettersCommute(o: ObjectBuilder, b: BodyState, c: Collider, k: Color, n: string)
    ensures o.WithBody(b).WithCollider(c) == o.WithCollider(c).WithBody(b)
    ensures o.WithColor(k).WithName(n) == o.WithName(n).WithColor(k)
    ensures o.WithBody(b).WithColor(k) == o.WithColor(k).WithBody(b)
    ensures o.WithCollider(c).WithName(n) == o.WithName(n).WithCollider(c)
  {
  }
}
