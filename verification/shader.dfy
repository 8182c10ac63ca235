/** The shader wrapper of GLShader.cpp: three stage shaders compiled one by
    one, linked into a program, then released. Each field holds a driver
    handle, 0 standing for "none". */
module Shader {
  import opened GL

  class GLShader {
    const gl: Driver
    var vertexShader: Handle
    var geometryShader: Handle
    var fragmentShader: Handle
    var program: Handle

    /** A stage field is 0 or names a live, compiled shader of its stage
        that no program holds attached. */
    ghost predicate StageOk(h: Handle, kind: ShaderType)
      reads gl
    {
      h == 0 ||
      (h in gl.shaders && gl.shaders[h].kind == kind && gl.shaders[h].compiled && gl.Unattached(h))
    }

    ghost predicate Valid()
      reads this, gl
    {
      gl.Valid() &&
      StageOk(vertexShader, VertexShader) &&
      StageOk(geometryShader, GeometryShader) &&
      StageOk(fragmentShader, FragmentShader) &&
      (program == 0 || program in gl.programs)
    }

    /** The nonzero stage handles. */
    function Stages(): (s: set<Handle>)
      reads this
      ensures 0 !in s
      ensures forall h :: h in s <==> h != 0 && (h == vertexShader || h == geometryShader || h == fragmentShader)
    {
      {vertexShader, geometryShader, fragmentShader} - {0}
    }

    constructor (gl: Driver)
      requires gl.Valid()
      ensures this.gl == gl && Valid()
      ensures vertexShader == 0 && geometryShader == 0 && fragmentShader == 0 && program == 0
    {
      this.gl := gl;
      vertexShader, geometryShader, fragmentShader, program := 0, 0, 0, 0;
    }

    /** Steps 2 to 5 of each Load*Shader: create a shader of the stage, give
        it the source, compile it and check the status. A rejected shader is
        deleted again and 0 is returned; an accepted one is returned live. */
    method CompileStage(kind: ShaderType, source: string, accepts: bool) returns (h: Handle, ok: bool)
      requires gl.Valid()
      modifies gl
      ensures gl.Valid() && gl.programs == old(gl.programs)
      ensures ok == accepts
      ensures !ok ==> h == 0 && gl.shaders == old(gl.shaders)
      ensures ok ==> h != 0 && h !in old(gl.shaders) && h !in old(gl.programs) && gl.Unattached(h) &&
                     gl.shaders == old(gl.shaders)[h := ShaderObject(kind, source, true)]
    {
      h := gl.CreateShader(kind);
      gl.ShaderSource(h, source);
      gl.CompileShader(h, accepts);
      var compiled := gl.CompileStatus(h);
      if !compiled {
        gl.DeleteShader(h);
        return 0, false;
      }
      return h, true;
    }

    /** LoadVertexShader with the file's text as `source` and the
        compiler's verdict as `accepts`. On failure the field is 0 and the
        driver holds no new shader; on success the field names a new live
        shader with that source. Nothing else of the wrapper changes. */
    method LoadVertexShader(source: string, accepts: bool) returns (ok: bool)
      requires Valid()
      modifies this`vertexShader, gl
      ensures Valid() && gl.programs == old(gl.programs)
      ensures ok == accepts
      ensures !ok ==> vertexShader == 0 && gl.shaders == old(gl.shaders)
      ensures ok ==> vertexShader !in old(gl.shaders) &&
                     gl.shaders == old(gl.shaders)[vertexShader := ShaderObject(VertexShader, source, true)]
    {
      vertexShader, ok := CompileStage(VertexShader, source, accepts);
    }

    /** LoadGeometryShader, as LoadVertexShader for the geometry stage. */
    method LoadGeometryShader(source: string, accepts: bool) returns (ok: bool)
      requires Valid()
      modifies this`geometryShader, gl
      ensures Valid() && gl.programs == old(gl.programs)
      ensures ok == accepts
      ensures !ok ==> geometryShader == 0 && gl.shaders == old(gl.shaders)
      ensures ok ==> geometryShader !in old(gl.shaders) &&
                     gl.shaders == old(gl.shaders)[geometryShader := ShaderObject(GeometryShader, source, true)]
    {
      geometryShader, ok := CompileStage(GeometryShader, source, accepts);
    }

    /** LoadFragmentShader, as LoadVertexShader for the fragment stage. */
    method LoadFragmentShader(source: string, accepts: bool) returns (ok: bool)
      requires Valid()
      modifies this`fragmentShader, gl
      ensures Valid() && gl.programs == old(gl.programs)
      ensures ok == accepts
      ensures !ok ==> fragmentShader == 0 && gl.shaders == old(gl.shaders)
      ensures ok ==> fragmentShader !in old(gl.shaders) &&
                     gl.shaders == old(gl.shaders)[fragmentShader := ShaderObject(FragmentShader, source, true)]
    {
      fragmentShader, ok := CompileStage(FragmentShader, source, accepts);
    }

    /** Create with the linker's verdict as `accepts`. A new program is
        linked from the vertex and fragment shaders and, when there is one,
        the geometry shader. On failure the program is deleted, the field is
        0 and the stage shaders stay live in their fields. On success the
        program stays live with nothing attached, the stage shaders are
        deleted and their fields are 0. A program the field named before is
        neither deleted nor changed. */
    method Create(accepts: bool) returns (ok: bool)
      requires Valid()
      modifies this, gl
      ensures Valid()
      ensures ok == accepts
      ensures !ok ==>
        program == 0 && gl.shaders == old(gl.shaders) && gl.programs == old(gl.programs) &&
        vertexShader == old(vertexShader) && geometryShader == old(geometryShader) &&
        fragmentShader == old(fragmentShader)
      ensures ok ==>
        program !in old(gl.programs) && program !in old(gl.shaders) &&
        gl.programs == old(gl.programs)[program := ProgramObject({}, true, old(Stages()))] &&
        gl.shaders == old(gl.shaders) - old(Stages()) &&
        vertexShader == 0 && geometryShader == 0 && fragmentShader == 0
    {
      ghost var stages := Stages();
      program := LinkStages(accepts);
      var linked := gl.LinkStatus(program);
      if !linked {
        gl.DeleteProgram(program);
        program := 0;
        return false;
      }
      DropStages();
      return true;
    }

    /** The first half of Create: a new program, the stage shaders attached
        to it (the geometry shader only when there is one), and the link. */
    method LinkStages(accepts: bool) returns (p: Handle)
      requires gl.Valid() && Stages() <= gl.shaders.Keys
      modifies gl
      ensures gl.Valid() && gl.shaders == old(gl.shaders)
      ensures p != 0 && p !in old(gl.programs) && p !in old(gl.shaders)
      ensures gl.programs == old(gl.programs)[p := ProgramObject(Stages(), accepts, Stages())]
    {
      p := gl.CreateProgram();
      ghost var programs0 := old(gl.programs);
      AttachStage(p, vertexShader, {});
      ghost var attached := {vertexShader} - {0};
      Overwrite(programs0, p, ProgramObject({}, false, {}), ProgramObject(attached, false, {}));
      if geometryShader != 0 {
        AttachStage(p, geometryShader, attached);
        Overwrite(programs0, p, ProgramObject(attached, false, {}), ProgramObject(attached + {geometryShader}, false, {}));
        attached := attached + {geometryShader};
      }
      AttachStage(p, fragmentShader, attached);
      Overwrite(programs0, p, ProgramObject(attached, false, {}), ProgramObject(attached + ({fragmentShader} - {0}), false, {}));
      attached := attached + ({fragmentShader} - {0});
      assert attached == Stages();
      gl.LinkProgram(p, accepts);
      Overwrite(programs0, p, ProgramObject(attached, false, {}), ProgramObject(attached, accepts, attached));
    }

    /** glAttachShader of a stage field to program `p`: a no-op for 0. */
    method AttachStage(p: Handle, h: Handle, ghost attached: set<Handle>)
      requires gl.Valid() && p in gl.programs && (h == 0 || h in gl.shaders)
      requires gl.programs[p] == ProgramObject(attached, false, {})
      modifies gl
      ensures gl.Valid() && gl.shaders == old(gl.shaders)
      ensures gl.programs == old(gl.programs)[p := ProgramObject(attached + ({h} - {0}), false, {})]
    {
      gl.AttachShader(p, h);
      if h == 0 {
        assert attached + ({h} - {0}) == attached;
        Restore(old(gl.programs), p);
      } else {
        assert {h} - {0} == {h};
      }
    }

    /** The second half of Create after a successful link: each stage
        shader is detached from the program and deleted (the geometry shader
        only when there is one), and its field becomes 0. */
    method DropStages()
      requires gl.Valid() && program in gl.programs && Stages() <= gl.shaders.Keys
      requires gl.programs[program].attached == Stages()
      requires forall q :: q in gl.programs && q != program ==> Stages() !! gl.programs[q].attached
      modifies this`vertexShader, this`geometryShader, this`fragmentShader, gl
      ensures gl.Valid()
      ensures vertexShader == 0 && geometryShader == 0 && fragmentShader == 0
      ensures gl.shaders == old(gl.shaders) - old(Stages())
      ensures gl.programs == old(gl.programs)[program := old(gl.programs)[program].(attached := {})]
    {
      ghost var stages, shaders0, programs0 := Stages(), gl.shaders, gl.programs;
      ghost var linked := programs0[program];
      ghost var v, g, f := vertexShader, geometryShader, fragmentShader;
      assert forall q :: q in programs0 && q != program ==> v !in programs0[q].attached && g !in programs0[q].attached && f !in programs0[q].attached;
      assert shaders0 - {} == shaders0;
      Restore(programs0, program);
      assert linked.attached - {} == linked.attached;
      DropStage(program, vertexShader, shaders0, programs0, linked, {});
      ghost var gone := {} + {vertexShader};
      vertexShader := 0;
      if geometryShader != 0 {
        DropStage(program, geometryShader, shaders0, programs0, linked, gone);
        gone := gone + {geometryShader};
        geometryShader := 0;
      }
      DropStage(program, fragmentShader, shaders0, programs0, linked, gone);
      gone := gone + {fragmentShader};
      fragmentShader := 0;
      assert linked.(attached := linked.attached - gone) == linked.(attached := {});
      assert gone - {0} == stages;
      RemoveAbsent(shaders0, gone, {0});
    }

    /** glDetachShader then glDeleteShader for one stage shader `h` that no
        program other than `p` holds attached. The ghost parameters relate
        the state to the one before the first stage was dropped: `gone` are
        the stages dropped so far. */
    method DropStage(p: Handle, h: Handle, ghost shaders0: map<Handle, ShaderObject>,
                     ghost programs0: map<Handle, ProgramObject>, ghost linked: ProgramObject, ghost gone: set<Handle>)
      requires gl.Valid() && p in gl.programs
      requires forall q :: q in programs0 && q != p ==> h !in programs0[q].attached
      requires gl.shaders == shaders0 - gone
      requires gl.programs == programs0[p := linked.(attached := linked.attached - gone)]
      modifies gl
      ensures gl.Valid()
      ensures gl.shaders == shaders0 - (gone + {h})
      ensures gl.programs == programs0[p := linked.(attached := linked.attached - (gone + {h}))]
    {
      gl.DetachShader(p, h);
      Overwrite(programs0, p, linked.(attached := linked.attached - gone),
                linked.(attached := linked.attached - gone - {h}));
      assert linked.attached - gone - {h} == linked.attached - (gone + {h});
      gl.DeleteShader(h);
      RemoveTwice(shaders0, gone, {h});
    }

    /** Destroy: the program is deleted when there is one, and all four
        fields become 0. The stage shaders are not deleted. */
    method Destroy()
      requires Valid()
      modifies this, gl
      ensures Valid()
      ensures vertexShader == 0 && geometryShader == 0 && fragmentShader == 0 && program == 0
      ensures gl.shaders == old(gl.shaders)
      ensures gl.programs == old(gl.programs) - {old(program)}
      ensures old(program) == 0 ==> unchanged(gl)
    {
      if program != 0 {
        gl.DeleteProgram(program);
      }
      program := 0;
      vertexShader := 0;
      geometryShader := 0;
      fragmentShader := 0;
    }

    /** Destroy corrected: besides the program, every stage shader still
        named by a field is deleted, so no driver object the wrapper created
        outlives it. */
    method Release()
      requires Valid()
      modifies this, gl
      ensures Valid()
      ensures vertexShader == 0 && geometryShader == 0 && fragmentShader == 0 && program == 0
      ensures gl.shaders == old(gl.shaders) - old(Stages())
      ensures gl.programs == old(gl.programs) - {old(program)}
    {
      if program != 0 {
        gl.DeleteProgram(program);
      }
      program := 0;
      DeleteStages();
    }

    /** The stage shaders of Release: each one named by a field is deleted
        and the field becomes 0. */
    method DeleteStages()
      requires gl.Valid()
      requires StageOk(vertexShader, VertexShader) && StageOk(geometryShader, GeometryShader) &&
               StageOk(fragmentShader, FragmentShader)
      modifies this`vertexShader, this`geometryShader, this`fragmentShader, gl
      ensures gl.Valid() && gl.programs == old(gl.programs)
      ensures vertexShader == 0 && geometryShader == 0 && fragmentShader == 0
      ensures gl.shaders == old(gl.shaders) - old(Stages())
    {
      ghost var shaders0 := gl.shaders;
      gl.DeleteShader(vertexShader);
      gl.DeleteShader(geometryShader);
      RemoveTwice(shaders0, {vertexShader}, {geometryShader});
      gl.DeleteShader(fragmentShader);
      RemoveTwice(shaders0, {vertexShader} + {geometryShader}, {fragmentShader});
      assert {vertexShader} + {geometryShader} + {fragmentShader} - {0} == Stages();
      RemoveAbsent(shaders0, {vertexShader} + {geometryShader} + {fragmentShader}, {0});
      vertexShader, geometryShader, fragmentShader := 0, 0, 0;
    }
  }

  /** A wrapper whose link fails and is then destroyed: both of its stage
      shaders are still live in the driver, while every field of the wrapper
      is 0, so nothing can delete them any more. */
  method FailedLinkThenDestroy(vs: string, fs: string) returns (v: Handle, f: Handle, live: map<Handle, ShaderObject>, fields: seq<Handle>)
    ensures fields == [0, 0, 0, 0]
    ensures v != 0 && f != 0 && v != f && v in live && f in live
    ensures live[v] == ShaderObject(VertexShader, vs, true) && live[f] == ShaderObject(FragmentShader, fs, true)
  {
    var gl := new Driver();
    var shader := new GLShader(gl);
    var ok := shader.LoadVertexShader(vs, true);
    v := shader.vertexShader;
    ok := shader.LoadFragmentShader(fs, true);
    f := shader.fragmentShader;
    ok := shader.Create(false);
    shader.Destroy();
    live := gl.shaders;
    fields := [shader.vertexShader, shader.geometryShader, shader.fragmentShader, shader.program];
  }

  /** The same sequence with Release in place of Destroy leaves the driver
      with no shader and no program. */
  method FailedLinkThenRelease(vs: string, fs: string) returns (live: map<Handle, ShaderObject>, programs: map<Handle, ProgramObject>, fields: seq<Handle>)
    ensures fields == [0, 0, 0, 0]
    ensures live == map[] && programs == map[]
  {
    var gl := new Driver();
    var shader := new GLShader(gl);
    var ok := shader.LoadVertexShader(vs, true);
    ok := shader.LoadFragmentShader(fs, true);
    ok := shader.Create(false);
    shader.Release();
    live, programs := gl.shaders, gl.programs;
    fields := [shader.vertexShader, shader.geometryShader, shader.fragmentShader, shader.program];
  }

  /** Destroy is idempotent: a second call finds every field 0 and leaves
      the driver and the wrapper exactly as the first call left them. */
  method DestroyTwice(shader: GLShader) returns (shaders1: map<Handle, ShaderObject>, programs1: map<Handle, ProgramObject>,
                                                 shaders2: map<Handle, ShaderObject>, programs2: map<Handle, ProgramObject>,
                                                 fields1: seq<Handle>, fields2: seq<Handle>)
    requires shader.Valid()
    modifies shader, shader.gl
    ensures shaders2 == shaders1 && programs2 == programs1 && fields2 == fields1 == [0, 0, 0, 0]
  {
    shader.Destroy();
    shaders1, programs1 := shader.gl.shaders, shader.gl.programs;
    fields1 := [shader.vertexShader, shader.geometryShader, shader.fragmentShader, shader.program];
    shader.Destroy();
    shaders2, programs2 := shader.gl.shaders, shader.gl.programs;
    fields2 := [shader.vertexShader, shader.geometryShader, shader.fragmentShader, shader.program];
  }
}
